/** The default template renderer: which placeholders a template has, what they become, and which template
    is chosen. */
module Template {
  import opened Options
  import opened Text
  import opened Escaping
  import opened StorageKeys

  predicate IsPathChar(c: char) {
    'a' <= c <= 'z' || 'A' <= c <= 'Z' || '0' <= c <= '9' || c == '_' || c == '.'
  }

  // ---------- Placeholders ----------

  predicate SpacesIn(s: string, from: nat, to: nat)
    requires to <= |s|
  {
    forall i :: from <= i < to ==> IsSpace(s[i])
  }

  predicate PathIn(s: string, from: nat, to: nat)
    requires to <= |s|
  {
    forall i :: from <= i < to ==> IsPathChar(s[i])
  }

  predicate TwoOf(s: string, i: nat, c: char) {
    i + 2 <= |s| && s[i] == c && s[i + 1] == c
  }

  /** `source[i..end]` is a path between two pairs of braces, with any white space around it. */
  ghost predicate IsPlaceholder(source: string, i: nat, end: nat, path: string) {
    exists j: nat, k: nat :: PathAt(source, i, j, k, end) && path == source[j..k]
  }

  predicate PathAt(source: string, i: nat, j: nat, k: nat, end: nat) {
    && i + 2 <= j < k <= end - 2 && end <= |source| && TwoOf(source, i, '{') && TwoOf(source, end - 2, '}')
    && SpacesIn(source, i + 2, j) && PathIn(source, j, k) && SpacesIn(source, k, end - 2)
  }

  function SpaceEnd(s: string, i: nat): (end: nat)
    requires i <= |s|
    ensures i <= end <= |s| && SpacesIn(s, i, end) && (end == |s| || !IsSpace(s[end]))
    decreases |s| - i
  {
    if i == |s| || !IsSpace(s[i]) then i else SpaceEnd(s, i + 1)
  }

  function PathEnd(s: string, i: nat): (end: nat)
    requires i <= |s|
    ensures i <= end <= |s| && PathIn(s, i, end) && (end == |s| || !IsPathChar(s[end]))
    decreases |s| - i
  {
    if i == |s| || !IsPathChar(s[i]) then i else PathEnd(s, i + 1)
  }

  /** Where a placeholder ends, and its path. */
  datatype Placeholder = Placeholder(end: nat, path: string)

  /** The placeholder at a position, as the pattern finds it: every class takes as much as it can. */
  function PlaceholderAt(source: string, i: nat): (found: Option<Placeholder>)
    requires i <= |source|
    ensures found.Some? ==> i < found.value.end <= |source|
  {
    if !TwoOf(source, i, '{') then None
    else
      var j := SpaceEnd(source, i + 2);
      var k := PathEnd(source, j);
      var l := SpaceEnd(source, k);
      if j < k && TwoOf(source, l, '}') then Some(Placeholder(l + 2, source[j..k])) else None
  }

  lemma NoSpaceInPath(c: char)
    ensures IsSpace(c) ==> !IsPathChar(c) && !IsSpecial(c) && c != '}' && c != '{'
    ensures IsPathChar(c) ==> !IsSpecial(c) && c != '}' && c != '{'
  {
  }

  lemma SpaceEndIs(s: string, i: nat, end: nat)
    requires i <= end < |s| && SpacesIn(s, i, end) && (IsPathChar(s[end]) || s[end] == '}')
    ensures SpaceEnd(s, i) == end
  {
    NoSpaceInPath(s[end]);
  }

  lemma PathEndIs(s: string, i: nat, end: nat)
    requires i <= end < |s| && PathIn(s, i, end) && (IsSpace(s[end]) || s[end] == '}')
    ensures PathEnd(s, i) == end
  {
    NoSpaceInPath(s[end]);
  }

  lemma FoundIsPlaceholder(source: string, i: nat)
    requires i <= |source|
    ensures var found := PlaceholderAt(source, i);
      found.Some? ==> IsPlaceholder(source, i, found.value.end, found.value.path)
  {
    var found := PlaceholderAt(source, i);
    if found.Some? {
      assert PathAt(source, i, SpaceEnd(source, i + 2), PathEnd(source, SpaceEnd(source, i + 2)), found.value.end);
    }
  }

  lemma PartsAreFound(source: string, i: nat, j: nat, k: nat, end: nat)
    requires PathAt(source, i, j, k, end)
    ensures SpaceEnd(source, i + 2) == j && PathEnd(source, j) == k && SpaceEnd(source, k) == end - 2
  {
    SpaceEndIs(source, i + 2, j);
    PathEndIs(source, j, k);
    SpaceEndIs(source, k, end - 2);
  }

  lemma PlaceholderIsFound(source: string, i: nat, end: nat, path: string)
    requires i <= end <= |source| && IsPlaceholder(source, i, end, path)
    ensures PlaceholderAt(source, i) == Some(Placeholder(end, path))
  {
    var j: nat, k: nat :| PathAt(source, i, j, k, end) && path == source[j..k];
    PartsAreFound(source, i, j, k, end);
  }

  /** The search finds exactly the placeholders; a position begins at most one. */
  lemma PlaceholderExactly(source: string, i: nat, end: nat, path: string)
    requires i <= end <= |source|
    ensures PlaceholderAt(source, i) == Some(Placeholder(end, path)) <==> IsPlaceholder(source, i, end, path)
  {
    FoundIsPlaceholder(source, i);
    if IsPlaceholder(source, i, end, path) {
      PlaceholderIsFound(source, i, end, path);
    }
  }

  /** `\w` and the dot, by their codes. */
  lemma PathChars(c: char)
    ensures IsPathChar(c) <==>
      48 <= c as int <= 57 || 65 <= c as int <= 90 || c as int == 95 || 97 <= c as int <= 122 || c as int == 46
  {
  }

  predicate AllSpace(s: string) {
    forall i :: 0 <= i < |s| ==> IsSpace(s[i])
  }

  /** Two braces, white space, a path, white space, two braces. */
  ghost predicate Spells(s: string, path: string) {
    exists before, after :: AllSpace(before) && AllSpace(after) && s == "{{" + before + path + after + "}}"
  }

  lemma SpelledParts(s: string, before: string, path: string, after: string)
    requires s == "{{" + before + path + after + "}}"
    ensures var j := 2 + |before|; var k := j + |path|;
      && |s| == k + |after| + 2 && s[0] == s[1] == '{' && s[|s| - 2] == s[|s| - 1] == '}'
      && s[2..j] == before && s[j..k] == path && s[k..|s| - 2] == after
  {
  }

  /** A placeholder is what is spelled so. */
  lemma PlaceholderIsSpelled(source: string, i: nat, end: nat, path: string)
    requires i <= end <= |source|
    ensures IsPlaceholder(source, i, end, path) <==>
      path != "" && (forall n :: 0 <= n < |path| ==> IsPathChar(path[n])) && Spells(source[i..end], path)
  {
    var s := source[i..end];
    if IsPlaceholder(source, i, end, path) {
      var j: nat, k: nat :| PathAt(source, i, j, k, end) && path == source[j..k];
      var before, after := source[i + 2..j], source[k..end - 2];
      assert source[i..i + 2] == "{{" && source[end - 2..end] == "}}";
      assert s == source[i..i + 2] + before + path + after + source[end - 2..end];
      assert AllSpace(before) && AllSpace(after);
    }
    if path != "" && (forall n :: 0 <= n < |path| ==> IsPathChar(path[n])) && Spells(s, path) {
      var before, after :| AllSpace(before) && AllSpace(after) && s == "{{" + before + path + after + "}}";
      SpelledParts(s, before, path, after);
      SpelledAt(source, i, end, before, path, after);
    }
  }

  lemma SpelledAt(source: string, i: nat, end: nat, before: string, path: string, after: string)
    requires i <= end <= |source| && source[i..end] == "{{" + before + path + after + "}}"
    requires AllSpace(before) && AllSpace(after) && path != "" && forall n :: 0 <= n < |path| ==> IsPathChar(path[n])
    ensures IsPlaceholder(source, i, end, path)
  {
    var s, j := source[i..end], i + 2 + |before|;
    var k := j + |path|;
    SpelledParts(s, before, path, after);
    assert forall n :: 0 <= n < |s| ==> source[i + n] == s[n];
    assert source[j..k] == path;
    assert forall n :: i + 2 <= n < j ==> source[n] == s[2..2 + |before|][n - i - 2];
    assert forall n :: j <= n < k ==> source[n] == path[n - j];
    assert forall n :: k <= n < end - 2 ==> source[n] == after[n - k];
    assert PathAt(source, i, j, k, end);
  }

  // ---------- Interpolation ----------

  /** A template taken apart, before any value is known. */
  datatype Token = Literal(c: char) | Variable(path: string)

  /** The placeholders of a template from left to right, and the characters between them. */
  function Tokens(source: string, i: nat): seq<Token>
    requires i <= |source|
    decreases |source| - i
  {
    if i == |source| then []
    else match PlaceholderAt(source, i)
      case Some(found) => [Variable(found.path)] + Tokens(source, found.end)
      case None => [Literal(source[i])] + Tokens(source, i + 1)
  }

  datatype Rendered = Ok(text: string) | MissingVariable(path: string)

  /** The string form of the value at a path, if there is one. */
  type Resolver = string -> Option<string>

  /** The text that stands for a value. */
  function Shown(value: Option<string>, escape: bool): string {
    if value == None then "" else if escape then EscapeHtml(value.value) else value.value
  }

  /** `source.replace(pattern, …)` from position `i` on; `strict` is `onMissingVar: 'throw'`. */
  function Interpolate(source: string, i: nat, escape: bool, strict: bool, resolve: Resolver): Rendered
    requires i <= |source|
    decreases |source| - i
  {
    if i == |source| then Ok("")
    else match PlaceholderAt(source, i)
      case Some(found) =>
        if resolve(found.path) == None && strict then MissingVariable(found.path)
        else Before(Shown(resolve(found.path), escape), Interpolate(source, found.end, escape, strict, resolve))
      case None => Before([source[i]], Interpolate(source, i + 1, escape, strict, resolve))
  }

  function Before(text: string, rest: Rendered): Rendered {
    if rest.Ok? then Ok(text + rest.text) else rest
  }

  function ShownToken(token: Token, escape: bool, resolve: Resolver): string {
    match token
    case Literal(c) => [c]
    case Variable(path) => Shown(resolve(path), escape)
  }

  /** Every variable replaced by what its value shows. */
  function Fill(tokens: seq<Token>, escape: bool, resolve: Resolver): string {
    if tokens == [] then "" else ShownToken(tokens[0], escape, resolve) + Fill(tokens[1..], escape, resolve)
  }

  function FirstMissing(tokens: seq<Token>, resolve: Resolver): Option<string> {
    if tokens == [] then None
    else if tokens[0].Variable? && resolve(tokens[0].path) == None then Some(tokens[0].path)
    else FirstMissing(tokens[1..], resolve)
  }

  /** Rendering fills the variables of the template and nothing else: a value is never read for
      placeholders. It fails only in strict mode, on the first variable without a value. */
  lemma {:induction false} InterpolationFills(source: string, i: nat, escape: bool, strict: bool, resolve: Resolver)
    requires i <= |source|
    ensures var tokens := Tokens(source, i);
      Interpolate(source, i, escape, strict, resolve) ==
        if strict && FirstMissing(tokens, resolve).Some? then MissingVariable(FirstMissing(tokens, resolve).value)
        else Ok(Fill(tokens, escape, resolve))
    decreases |source| - i
  {
    if i < |source| {
      var found := PlaceholderAt(source, i);
      var next := if found.Some? then found.value.end else i + 1;
      InterpolationFills(source, next, escape, strict, resolve);
      assert Tokens(source, i)[1..] == Tokens(source, next);
    }
  }

  /** One placeholder: what its value shows comes before the rest, as it is or spelled for HTML; without a value
      it shows nothing, or ends a strict rendering. */
  lemma PlaceholderShows(source: string, i: nat, end: nat, path: string, escape: bool, strict: bool, resolve: Resolver)
    requires i <= end <= |source| && IsPlaceholder(source, i, end, path)
    ensures var rendered, rest := Interpolate(source, i, escape, strict, resolve), Interpolate(source, end, escape, strict, resolve);
      match resolve(path)
      case None => rendered == if strict then MissingVariable(path) else rest
      case Some(value) =>
        && (rest.MissingVariable? ==> rendered == rest)
        && (rest.Ok? ==> rendered == Ok((if escape then EscapeHtml(value) else value) + rest.text))
  {
    PlaceholderIsFound(source, i, end, path);
    var rest := Interpolate(source, end, escape, strict, resolve);
    if rest.Ok? {
      assert "" + rest.text == rest.text;
    }
  }

  /** Any other character stands for itself. */
  lemma CharacterShows(source: string, i: nat, escape: bool, strict: bool, resolve: Resolver)
    requires i < |source| && forall end: nat, path :: i <= end <= |source| ==> !IsPlaceholder(source, i, end, path)
    ensures var rendered, rest := Interpolate(source, i, escape, strict, resolve), Interpolate(source, i + 1, escape, strict, resolve);
      && (rest.MissingVariable? ==> rendered == rest)
      && (rest.Ok? ==> rendered == Ok([source[i]] + rest.text))
  {
    FoundIsPlaceholder(source, i);
  }

  /** The token is what stands in `source[from..to]`: a placeholder, or a character that begins none. */
  ghost predicate StandsAt(source: string, from: nat, to: nat, token: Token) {
    && from < to <= |source|
    && match token
       case Literal(c) => to == from + 1 && source[from] == c && PlaceholderAt(source, from) == None
       case Variable(path) => IsPlaceholder(source, from, to, path)
  }

  /** The tokens, one after the other, make up the template from position `i` on. */
  ghost predicate Tiles(source: string, i: nat, tokens: seq<Token>)
    decreases |tokens|
  {
    if tokens == [] then i == |source|
    else exists next: nat :: StandsAt(source, i, next, tokens[0]) && Tiles(source, next, tokens[1..])
  }

  /** There is exactly one way to take a template apart. */
  lemma {:induction false} TokensTile(source: string, i: nat, tokens: seq<Token>)
    requires i <= |source|
    ensures Tiles(source, i, tokens) <==> tokens == Tokens(source, i)
    decreases |source| - i
  {
    if i < |source| {
      var found := PlaceholderAt(source, i);
      var next := if found.Some? then found.value.end else i + 1;
      var first := if found.Some? then Variable(found.value.path) else Literal(source[i]);
      FirstStands(source, i, next, first);
      if tokens != [] {
        TokensTile(source, next, tokens[1..]);
        if Tiles(source, i, tokens) {
          var to: nat :| StandsAt(source, i, to, tokens[0]) && Tiles(source, to, tokens[1..]);
          OnlyOneStands(source, i, to, tokens[0]);
        }
      }
    }
  }

  lemma FirstStands(source: string, i: nat, next: nat, first: Token)
    requires i < |source|
    requires var found := PlaceholderAt(source, i);
      if found.Some? then next == found.value.end && first == Variable(found.value.path) else next == i + 1 && first == Literal(source[i])
    ensures StandsAt(source, i, next, first)
  {
    FoundIsPlaceholder(source, i);
  }

  lemma OnlyOneStands(source: string, i: nat, to: nat, token: Token)
    requires StandsAt(source, i, to, token)
    ensures var found := PlaceholderAt(source, i);
      if found.Some? then to == found.value.end && token == Variable(found.value.path) else to == i + 1 && token == Literal(source[i])
  {
    if token.Variable? {
      PlaceholderIsFound(source, i, to, token.path);
    }
  }

  // ---------- Values bring no markup ----------

  lemma PlaceholderHasNoSpecials(source: string, i: nat, end: nat, path: string)
    requires i <= end <= |source| && IsPlaceholder(source, i, end, path)
    ensures Specials(source[i..end]) == ""
  {
    forall m | i <= m < end ensures !IsSpecial(source[m]) {
      NoSpaceInPath(source[m]);
    }
    NoSpecials(source[i..end]);
  }

  /** Whatever the data hold, the angle brackets and quotes of the rendered HTML are those of the template. */
  lemma {:induction false} MarkupIsTheTemplates(source: string, i: nat, strict: bool, resolve: Resolver)
    requires i <= |source|
    ensures var rendered := Interpolate(source, i, true, strict, resolve);
      rendered.Ok? ==> Specials(rendered.text) == Specials(source[i..])
    decreases |source| - i
  {
    if i < |source| {
      var found := PlaceholderAt(source, i);
      var next := if found.Some? then found.value.end else i + 1;
      MarkupIsTheTemplates(source, next, strict, resolve);
      var rest := Interpolate(source, next, true, strict, resolve);
      assert source[i..] == source[i..next] + source[next..];
      SpecialsOfSum(source[i..next], source[next..]);
      var shown := if found.Some? then Shown(resolve(found.value.path), true) else [source[i]];
      if found.Some? {
        FoundIsPlaceholder(source, i);
        PlaceholderHasNoSpecials(source, i, next, found.value.path);
        if resolve(found.value.path).Some? {
          EscapedHasNoSpecials(resolve(found.value.path).value);
        }
      } else {
        assert source[i..next] == [source[i]];
      }
      if rest.Ok? {
        SpecialsOfSum(shown, rest.text);
      }
    }
  }

  // ---------- Choosing a template ----------

  datatype Definition = Definition(subject: string, html: string, text: Option<string>)

  function TemplateKey(name: string, locale: string): string {
    name + "::" + locale
  }

  lemma ColonBefore(name: string, locale: string)
    ensures var key := TemplateKey(name, locale);
      |key| == |name| + 2 + |locale| && key[|key| - |locale| - 1] == ':' && key[|key| - |locale|..] == locale
  {
  }

  lemma ShorterLocale(name: string, locale: string, other: string, another: string)
    ensures TemplateKey(name, locale) == TemplateKey(other, another) && |locale| < |another| ==> ':' in another
  {
    var key := TemplateKey(name, locale);
    if key == TemplateKey(other, another) && |locale| < |another| {
      ColonBefore(name, locale);
      ColonBefore(other, another);
      assert another[|another| - |locale| - 1] == key[|key| - |locale| - 1];
    }
  }

  /** Two templates are filed under one key only if they are one, if a locale has no colon in it. */
  lemma TemplatesApart(name: string, locale: string, other: string, another: string)
    requires ':' !in locale && ':' !in another
    ensures TemplateKey(name, locale) == TemplateKey(other, another) <==> name == other && locale == another
  {
    ShorterLocale(name, locale, other, another);
    ShorterLocale(other, another, name, locale);
    ColonBefore(name, locale);
    ColonBefore(other, another);
    if TemplateKey(name, locale) == TemplateKey(other, another) {
      assert name == TemplateKey(name, locale)[..|name|] && other == TemplateKey(other, another)[..|other|];
    }
  }

  predicate Registered(templates: map<string, Definition>, name: string, locale: string) {
    TemplateKey(name, locale) in templates
  }

  function FirstRegistered(templates: map<string, Definition>, name: string, locales: seq<string>): Option<string> {
    if locales == [] then None
    else if Registered(templates, name, locales[0]) then Some(locales[0])
    else FirstRegistered(templates, name, locales[1..])
  }

  /** `fallbackLocales.filter(candidate => candidate !== locale)`. */
  function Others(locales: seq<string>, locale: string): seq<string> {
    if locales == [] then []
    else if locales[0] != locale then [locales[0]] + Others(locales[1..], locale)
    else Others(locales[1..], locale)
  }

  lemma {:induction false} FirstAmongOthers(templates: map<string, Definition>, name: string, locales: seq<string>, locale: string)
    requires !Registered(templates, name, locale)
    ensures FirstRegistered(templates, name, Others(locales, locale)) == FirstRegistered(templates, name, locales)
  {
    if locales != [] {
      FirstAmongOthers(templates, name, locales[1..], locale);
    }
  }

  /** The template for the requested locale, else for the first fallback that has one. */
  method ResolveTemplate(templates: map<string, Definition>, name: string, locale: string, fallbacks: seq<string>)
    returns (chosen: Option<Definition>)
    ensures Registered(templates, name, locale) ==> chosen == Some(templates[TemplateKey(name, locale)])
    ensures !Registered(templates, name, locale) ==>
      match FirstRegistered(templates, name, fallbacks)
      case None => chosen == None
      case Some(fallback) => Registered(templates, name, fallback) && chosen == Some(templates[TemplateKey(name, fallback)])
  {
    var chain := [locale] + Others(fallbacks, locale);
    if !Registered(templates, name, locale) {
      FirstAmongOthers(templates, name, fallbacks, locale);
      assert chain[1..] == Others(fallbacks, locale);
    }
    for n := 0 to |chain|
      invariant FirstRegistered(templates, name, chain) == FirstRegistered(templates, name, chain[n..])
    {
      assert chain[n..][1..] == chain[n + 1..];
      if Registered(templates, name, chain[n]) {
        return Some(templates[TemplateKey(name, chain[n])]);
      }
    }
    return None;
  }

  datatype RenderedEmail = RenderedEmail(subject: Rendered, html: Rendered, text: Option<Rendered>)

  /** `render`, once the template is chosen: only the html body is escaped. */
  function Render(template: Definition, strict: bool, resolve: Resolver): RenderedEmail {
    RenderedEmail(
      Interpolate(template.subject, 0, false, strict, resolve),
      Interpolate(template.html, 0, true, strict, resolve),
      if template.text.Some? then Some(Interpolate(template.text.value, 0, false, strict, resolve)) else None)
  }

  /** Rendered without a miss: subject and text show the values as they are, and the html has the markup of
      its template whatever they hold. */
  lemma OnlyHtmlIsEscaped(template: Definition, strict: bool, resolve: Resolver)
    ensures var email := Render(template, strict, resolve);
      && (email.subject.Ok? ==> email.subject.text == Fill(Tokens(template.subject, 0), false, resolve))
      && (email.html.Ok? ==> email.html.text == Fill(Tokens(template.html, 0), true, resolve)
                             && Specials(email.html.text) == Specials(template.html))
      && (email.text.Some? <==> template.text.Some?)
      && (email.text.Some? && email.text.value.Ok? ==>
           email.text.value.text == Fill(Tokens(template.text.value, 0), false, resolve))
  {
    InterpolationFills(template.subject, 0, false, strict, resolve);
    InterpolationFills(template.html, 0, true, strict, resolve);
    MarkupIsTheTemplates(template.html, 0, strict, resolve);
    assert template.html[0..] == template.html;
    if template.text.Some? {
      InterpolationFills(template.text.value, 0, false, strict, resolve);
    }
  }

  // ---------- Nested paths ----------

  /** Data as the resolver sees them: text, or an object with its own keys. */
  datatype Data = Text(text: string) | Object(entries: map<string, Data>)

  /** `path.split('.')`. */
  function Split(path: string): (keys: seq<string>)
    ensures keys != []
  {
    if path == "" then [""]
    else
      var rest := Split(path[1..]);
      if path[0] == '.' then [""] + rest else [[path[0]] + rest[0]] + rest[1..]
  }

  /** The value reached by following own keys. */
  function Reached(data: Option<Data>, keys: seq<string>): Option<Data>
    decreases |keys|
  {
    if keys == [] then data
    else match data
      case Some(Object(entries)) => Reached(if keys[0] in entries then Some(entries[keys[0]]) else None, keys[1..])
      case _ => None
  }

  /** `path` leads from the data through objects by the keys, one after the other. */
  ghost predicate Leads(path: seq<Data>, data: Data, keys: seq<string>) {
    && |path| == |keys| + 1 && path[0] == data
    && forall i :: 0 <= i < |keys| ==> LeadsOn(path[i], keys[i], path[i + 1])
  }

  predicate LeadsOn(from: Data, key: string, to: Data) {
    from.Object? && key in from.entries && from.entries[key] == to
  }

  lemma NothingBehindNothing(keys: seq<string>)
    ensures Reached(None, keys) == None
  {
  }

  /** A value is reached, if and only if the keys lead to it: not behind a missing key, nor behind a text. */
  lemma {:induction false} ReachedIff(data: Data, keys: seq<string>, found: Data)
    ensures Reached(Some(data), keys) == Some(found) <==> exists path :: Leads(path, data, keys) && path[|keys|] == found
    decreases |keys|
  {
    if keys == [] {
      assert Leads([data], data, keys);
    } else {
      var rest := keys[1..];
      NothingBehindNothing(rest);
      if data.Object? && keys[0] in data.entries {
        var next := data.entries[keys[0]];
        ReachedIff(next, rest, found);
        if path :| Leads(path, next, rest) && path[|rest|] == found {
          var longer := [data] + path;
          forall i | 0 <= i < |keys| ensures LeadsOn(longer[i], keys[i], longer[i + 1]) {
            assert i > 0 ==> LeadsOn(path[i - 1], rest[i - 1], path[i]);
          }
          assert Leads(longer, data, keys);
        }
        forall path | Leads(path, data, keys) && path[|keys|] == found ensures Reached(Some(next), rest) == Some(found) {
          assert LeadsOn(path[0], keys[0], path[1]);
          assert Leads(path[1..], next, rest) by {
            forall i | 0 <= i < |rest| ensures LeadsOn(path[1..][i], rest[i], path[1..][i + 1]) {
              assert LeadsOn(path[i + 1], keys[i + 1], path[i + 2]);
            }
          }
          assert path[1..][|rest|] == found;
        }
      } else {
        forall path ensures !Leads(path, data, keys) {
          assert Leads(path, data, keys) ==> LeadsOn(path[0], keys[0], path[1]);
        }
      }
    }
  }

  method ResolveNested(data: Data, path: string) returns (found: Option<Data>)
    ensures found == Reached(Some(data), Split(path))
  {
    found := Some(data);
    var keys := Split(path);
    for n := 0 to |keys|
      invariant Reached(Some(data), keys) == Reached(found, keys[n..])
    {
      assert keys[n..][1..] == keys[n + 1..];
      match found {
        case Some(Object(entries)) =>
          found := if keys[n] in entries then Some(entries[keys[n]]) else None;
        case _ => return None;
      }
    }
  }

  /** A path names the keys it was joined from, if none of them has a dot in it. */
  lemma {:induction false} SplitJoined(keys: seq<string>)
    requires keys != [] && forall k :: 0 <= k < |keys| ==> '.' !in keys[k]
    ensures Split(Join(keys, ".")) == keys
    decreases |keys|, |keys[0]|
  {
    var first := keys[0];
    if first == "" {
      if |keys| > 1 {
        SplitJoined(keys[1..]);
        assert Join(keys, ".") == "." + Join(keys[1..], ".") && Join(keys, ".")[1..] == Join(keys[1..], ".");
      }
    } else {
      var shorter := [first[1..]] + keys[1..];
      assert shorter[1..] == keys[1..];
      SplitJoined(shorter);
      assert Join(keys, ".") == [first[0]] + Join(shorter, ".") && Join(keys, ".")[1..] == Join(shorter, ".");
      assert first[0] in first;
      assert [first[0]] + first[1..] == first && [first] + keys[1..] == keys;
    }
  }
}
