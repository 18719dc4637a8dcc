/** `scrubValuesFromErrorChain`: taking secrets out of a chain of errors, in place where possible. */
module ErrorChain {
  import opened Options
  import opened Text
  import opened Redaction
  import opened RedactionLaws
  import opened ErrorNodes

  // ---------- Specification ----------

  /** The three ways one error can come out of the scrub. */
  datatype Fate = InPlace | Copied | Withheld

  ghost function RedactedStack(stack: Option<string>, clean: Cleaner): Option<string> {
    if stack.Some? then Some(clean(stack.value)) else None
  }

  ghost function RedactedTexts(texts: Texts, clean: Cleaner): Texts {
    Texts(clean(texts.name), clean(texts.message), RedactedStack(texts.stack, clean))
  }

  /** One write of the scrub, and what comes after it: a write that throws or is refused decides, and
      one that is ignored only leaves the error in place if it was idle. */
  function AfterWrite(write: Write, idle: bool, rest: Fate): Fate {
    match write
    case Throws => Withheld
    case Refuses => Copied
    case Accepts => rest
    case Ignores => if rest == InPlace && !idle then Copied else rest
  }

  /** The writes in their order: a name that would not change, a missing stack and a missing cause
      are not written. */
  ghost function FateOfWrites(v: View, clean: Cleaner): Fate {
    var redacted := RedactedTexts(v.texts, clean);
    var cause := if v.cause == Absent then InPlace else AfterWrite(v.traits.cause, v.cause == Undefined, InPlace);
    var stack := if v.texts.stack == None then cause
                 else AfterWrite(v.traits.stack, redacted.stack == v.texts.stack, cause);
    var message := AfterWrite(v.traits.message, redacted.message == v.texts.message, stack);
    if redacted.name == v.texts.name then message else AfterWrite(v.traits.name, false, message)
  }

  /** The response and the options of an exception can be replaced, and what was added can be deleted. */
  ghost predicate Strips(v: View) {
    && (v.contract.Some? ==> v.traits.response == Accepts && v.traits.options == Accepts)
    && forall x :: x in v.extras ==> x.deletable
  }

  ghost function FateOf(v: View, clean: Cleaner): Fate {
    if v.traits.unreadable then Withheld
    else if !Strips(v) then Copied
    else FateOfWrites(v, clean)
  }

  /** What a redacted clone shows of a text or a number. */
  ghost function CleanShown(s: Shown, clean: Cleaner): Shown {
    match s
    case Written(text) => Written(clean(text))
    case Numeral(text) => if clean(text) == text then s else Written(MARKER)
  }

  ghost function CleanResponse(response: seq<Shown>, clean: Cleaner): seq<Shown> {
    seq(|response|, i requires 0 <= i < |response| => CleanShown(response[i], clean))
  }

  /** An exception keeps its code and its status as they are. */
  ghost function Stripped(contract: Option<Contract>, clean: Cleaner): Option<Contract> {
    match contract
    case None => None
    case Some(c) => Some(Contract(c.code, c.status, CleanResponse(c.response, clean), []))
  }

  /** Only an error that stays in place stays an exception. */
  ghost function CleanContract(v: View, clean: Cleaner): Option<Contract> {
    if FateOf(v, clean) == InPlace then Stripped(v.contract, clean) else None
  }

  /** The text of the representative of an error. */
  ghost function CleanTexts(v: View, clean: Cleaner): Texts {
    if FateOf(v, clean) == Withheld then Texts("Error", MARKER, None) else RedactedTexts(v.texts, clean)
  }

  /** The cause the scrub follows from an error: nothing behind an error that cannot be inspected. */
  ghost function FollowedCause(v: View, clean: Cleaner): Cause {
    if FateOf(v, clean) == Withheld then Absent else v.cause
  }

  ghost function CleanOther(text: Option<string>, clean: Cleaner): string {
    if text.Some? then clean(text.value) else MARKER
  }

  /** A cause with its error replaced by the representative of that error, and any other value by
      its redacted string form. */
  ghost function CleanCause(cause: Cause, rep: map<ErrorNode, ErrorNode>, clean: Cleaner): Cause
  {
    match cause
    case Link(node) => if node in rep then Link(rep[node]) else Absent
    case Other(text) => Other(Some(CleanOther(text, clean)))
    case _ => cause
  }

  /** One error, its representative, and what the scrub promises about the two. */
  ghost predicate ScrubbedAt(before: Heap, after: Heap, rep: map<ErrorNode, ErrorNode>, clean: Cleaner, n: ErrorNode)
    requires n in rep
  {
    && n in before && rep[n] in after
    && (rep[n] == n <==> FateOf(before[n], clean) == InPlace)
    && (rep[n] != n ==> rep[n] !in before)
    && after[rep[n]].texts == CleanTexts(before[n], clean)
    && after[rep[n]].extras == [] && after[rep[n]].contract == CleanContract(before[n], clean)
    && (FollowedCause(before[n], clean).Link? ==> FollowedCause(before[n], clean).node in rep)
    && after[rep[n]].cause == CleanCause(FollowedCause(before[n], clean), rep, clean)
  }

  /** What a scrub of the heap `before` does to the errors in `rep`: each has a representative of its
      own, which carries redacted text and nothing else, and is wired as the original was. */
  ghost predicate Scrubbed(before: Heap, after: Heap, rep: map<ErrorNode, ErrorNode>, clean: Cleaner) {
    && (forall n {:trigger rep[n]} :: n in rep ==> ScrubbedAt(before, after, rep, clean, n))
    && (forall m, n :: m in rep && n in rep && m != n ==> rep[m] != rep[n])
  }

  /** `walked` is the chain from `error` on: every error but the first is the followed cause of the
      one before it. */
  ghost predicate WalkOf(before: Heap, error: ErrorNode, walked: seq<ErrorNode>, clean: Cleaner) {
    && walked != [] && walked[0] == error
    && (forall i :: 0 <= i < |walked| ==> walked[i] in before)
    && (forall i: nat :: i + 1 < |walked| ==> Follows(before, walked, i, clean))
  }

  ghost predicate Follows(before: Heap, walked: seq<ErrorNode>, i: nat, clean: Cleaner)
    requires i + 1 < |walked|
  {
    walked[i] in before && FollowedCause(before[walked[i]], clean) == Link(walked[i + 1])
  }

  // ---------- The algorithm ----------

  datatype ChainLink = ChainLink(node: ErrorNode, representative: ErrorNode, hasCause: bool, rawCause: Cause)

  /** `coerceRedacted`: the redacted string form of a value, or the marker when converting it throws. */
  method CoerceRedacted(text: Option<string>, values: seq<string>, ghost clean: Cleaner) returns (coerced: string)
    requires IsRedactor(clean, ValueSet(values))
    ensures coerced == CleanOther(text, clean)
  {
    if text.Some? {
      coerced := RedactValues(text.value, values);
    } else {
      coerced := MARKER;
    }
  }

  /** What can be read in the redacted clone of a response. */
  method RedactResponse(response: seq<Shown>, values: seq<string>, ghost clean: Cleaner) returns (redacted: seq<Shown>)
    requires IsRedactor(clean, ValueSet(values))
    ensures redacted == CleanResponse(response, clean)
  {
    redacted := [];
    for i := 0 to |response|
      invariant |redacted| == i && forall j :: 0 <= j < i ==> redacted[j] == CleanShown(response[j], clean)
    {
      var text := RedactValues(response[i].text, values);
      var shown := if response[i].Numeral? && text == response[i].text then response[i]
                   else if response[i].Numeral? then Written(MARKER)
                   else Written(text);
      redacted := redacted + [shown];
    }
  }

  /** Replaces the response of an exception by its redacted form and empties its options. */
  method StripContract(node: ErrorNode, values: seq<string>, ghost clean: Cleaner) returns (stripped: bool)
    requires IsRedactor(clean, ValueSet(values))
    modifies node`contract
    ensures stripped <==> (old(node.contract).Some? ==> node.traits.response == Accepts && node.traits.options == Accepts)
    ensures stripped ==> node.contract == Stripped(old(node.contract), clean)
  {
    if node.contract == None {
      return true;
    }
    var redacted := RedactResponse(node.contract.value.response, values, clean);
    if node.traits.response != Accepts {
      return false;
    }
    node.contract := Some(node.contract.value.(response := redacted));
    if node.traits.options != Accepts {
      return false;
    }
    node.contract := Some(node.contract.value.(options := []));
    stripped := true;
  }

  /** Deletes the consumer-added properties one by one; stops at the first that resists. */
  method DeleteExtraOwnKeys(node: ErrorNode) returns (deleted: bool)
    modifies node`extras
    ensures deleted <==> forall x :: x in old(node.extras) ==> x.deletable
    ensures deleted ==> node.extras == []
  {
    while node.extras != [] && node.extras[0].deletable
      invariant (forall x :: x in node.extras ==> x.deletable) <==> (forall x :: x in old(node.extras) ==> x.deletable)
      decreases |node.extras|
    {
      assert node.extras == [node.extras[0]] + node.extras[1..];
      node.extras := node.extras[1..];
    }
    deleted := node.extras == [];
    assert !deleted ==> node.extras[0] in node.extras;
  }

  /** Takes from an error everything but its texts and its cause, and from an exception all but its contract. */
  method StripExtraProperties(node: ErrorNode, values: seq<string>, ghost clean: Cleaner) returns (stripped: bool)
    requires IsRedactor(clean, ValueSet(values))
    modifies node`extras, node`contract
    ensures stripped <==> old(Strips(node.Look()))
    ensures stripped ==> node.extras == [] && node.contract == Stripped(old(node.contract), clean)
  {
    stripped := StripContract(node, values, clean);
    if stripped {
      stripped := DeleteExtraOwnKeys(node);
    }
  }

  /** Strips the error and writes the redacted fields into it, reading back what was stored. */
  method Rewrite(node: ErrorNode, name: string, message: string, stack: Option<string>, values: seq<string>, ghost clean: Cleaner)
    returns (fate: Fate)
    requires !node.traits.unreadable && IsRedactor(clean, ValueSet(values))
    requires Texts(name, message, stack) == RedactedTexts(node.Look().texts, clean)
    modifies node
    ensures fate == old(FateOf(node.Look(), clean))
    ensures fate == InPlace ==> node.Look().texts == Texts(name, message, stack) && node.extras == []
    ensures fate == InPlace ==> node.contract == Stripped(old(node.contract), clean)
    ensures fate == InPlace ==> node.cause == (if old(node.cause) == Absent then Absent else Undefined)
  {
    var hasCause := node.cause != Absent;
    var stripped := StripExtraProperties(node, values, clean);
    if !stripped {
      return Copied;
    }
    if node.name != name {
      match node.traits.name {
        case Accepts => node.name := name;
        case Refuses => return Copied;
        case Ignores =>
        case Throws => return Withheld;
      }
    }
    match node.traits.message {
      case Accepts => node.message := message;
      case Refuses => return Copied;
      case Ignores =>
      case Throws => return Withheld;
    }
    if stack.Some? {
      match node.traits.stack {
        case Accepts => node.stack := stack;
        case Refuses => return Copied;
        case Ignores =>
        case Throws => return Withheld;
      }
    }
    if hasCause {
      match node.traits.cause {
        case Accepts => node.cause := Undefined;
        case Refuses => return Copied;
        case Ignores =>
        case Throws => return Withheld;
      }
    }
    var stuck := node.name == name && node.message == message && node.stack == stack
      && (!hasCause || node.cause == Undefined);
    fate := if stuck then InPlace else Copied;
  }

  /** What is known of a link after the first pass: `v` is the error before, `r` its representative. */
  ghost predicate Registered(v: View, link: ChainLink, r: View, clean: Cleaner) {
    && (link.representative == link.node <==> FateOf(v, clean) == InPlace)
    && r.texts == CleanTexts(v, clean)
    && r.extras == [] && r.contract == CleanContract(v, clean)
    && (if link.hasCause then link.rawCause else Absent) == FollowedCause(v, clean)
    && (link.hasCause ==> link.rawCause != Absent)
    && r.cause == (if link.representative == link.node && link.hasCause then Undefined else Absent)
    && (link.hasCause && r.traits.cause != Accepts ==>
         link.representative == link.node && r.traits.cause == Ignores && link.rawCause == Undefined)
  }

  /** Scrubs the fields of one error: the representative is the error itself when every write stuck,
      and otherwise a copy. */
  method RegisterLink(node: ErrorNode, values: seq<string>, ghost clean: Cleaner) returns (link: ChainLink)
    requires IsRedactor(clean, ValueSet(values))
    modifies node
    ensures link.node == node
    ensures link.representative == node || fresh(link.representative)
    ensures Registered(old(node.Look()), link, link.representative.Look(), clean)
  {
    if node.traits.unreadable {
      var minimal := new ErrorNode("Error", MARKER, None);
      return ChainLink(node, minimal, false, Absent);
    }
    var name := RedactValues(node.name, values);
    var message := RedactValues(node.message, values);
    var stack := None;
    if node.stack.Some? {
      var redacted := RedactValues(node.stack.value, values);
      stack := Some(redacted);
    }
    var hasCause, rawCause := node.cause != Absent, node.cause;
    var fate := Rewrite(node, name, message, stack, values, clean);
    match fate {
      case InPlace =>
        link := ChainLink(node, node, hasCause, rawCause);
      case Copied =>
        var copy := new ErrorNode(name, message, stack);
        link := ChainLink(node, copy, hasCause, rawCause);
      case Withheld =>
        var minimal := new ErrorNode("Error", MARKER, None);
        link := ChainLink(node, minimal, false, Absent);
    }
  }

  /** One link of the first pass, with the state of its representative in `reps`. `owner` names the
      error every representative stands for. */
  ghost predicate LinkDone(before: Heap, link: ChainLink, reps: Heap, owner: map<ErrorNode, ErrorNode>, clean: Cleaner) {
    && link.node in before
    && (link.representative != link.node ==> link.representative !in before)
    && link.representative in reps && link.representative in owner && owner[link.representative] == link.node
    && Registered(before[link.node], link, reps[link.representative], clean)
  }

  ghost predicate Has(links: map<ErrorNode, ChainLink>, n: ErrorNode) {
    n in links
  }

  /** The links of the first pass, one for every error in `links`. */
  ghost predicate LinksDone(before: Heap, links: map<ErrorNode, ChainLink>, reps: Heap,
                            owner: map<ErrorNode, ErrorNode>, clean: Cleaner) {
    forall n {:trigger Has(links, n)} :: n in links && Has(links, n) ==> links[n].node == n && LinkDone(before, links[n], reps, owner, clean)
  }

  /** `chain` lists the links in the order of the walk, and `seen` holds their representatives. */
  ghost predicate Listed(chain: seq<ChainLink>, seen: map<ErrorNode, ErrorNode>, links: map<ErrorNode, ChainLink>) {
    && (forall l {:trigger l in chain} :: l in chain ==> l.node in links && links[l.node] == l)
    && (forall n {:trigger links[n]} :: n in links ==> links[n] in chain && n in seen && seen[n] == links[n].representative)
    && seen.Keys == links.Keys
  }

  ghost predicate LeadsTo(link: ChainLink, next: ErrorNode) {
    link.hasCause && link.rawCause == Link(next)
  }

  /** No unregistered error is behind the link. */
  ghost predicate EndsInside(link: ChainLink, seen: map<ErrorNode, ErrorNode>) {
    link.hasCause && link.rawCause.Link? ==> link.rawCause.node in seen
  }

  ghost predicate FollowsAt(chain: seq<ChainLink>, i: nat)
    requires i + 1 < |chain|
  {
    LeadsTo(chain[i], chain[i + 1].node)
  }

  ghost predicate InOrder(chain: seq<ChainLink>) {
    forall i: nat :: i + 1 < |chain| ==> FollowsAt(chain, i)
  }

  lemma LinkAdded(before: Heap, links: map<ErrorNode, ChainLink>, reps: Heap, owner: map<ErrorNode, ErrorNode>,
                  clean: Cleaner, link: ChainLink, r: View)
    requires LinksDone(before, links, reps, owner, clean)
    requires link.node in before && link.node !in links && link.representative !in reps
    requires link.representative != link.node ==> link.representative !in before
    requires Registered(before[link.node], link, r, clean)
    ensures LinksDone(before, links[link.node := link], reps[link.representative := r],
                      owner[link.representative := link.node], clean)
  {
    var links', reps', owner' := links[link.node := link], reps[link.representative := r], owner[link.representative := link.node];
    forall n | n in links' ensures links'[n].node == n && LinkDone(before, links'[n], reps', owner', clean) {
      if n != link.node {
        assert Has(links, n);
      }
    }
  }

  lemma LinkListed(chain: seq<ChainLink>, seen: map<ErrorNode, ErrorNode>, links: map<ErrorNode, ChainLink>, link: ChainLink)
    requires Listed(chain, seen, links) && InOrder(chain) && link.node !in links
    requires chain != [] ==> LeadsTo(chain[|chain| - 1], link.node)
    ensures Listed(chain + [link], seen[link.node := link.representative], links[link.node := link])
    ensures InOrder(chain + [link])
  {
    forall i: nat | i + 1 < |chain + [link]| ensures FollowsAt(chain + [link], i) {
      if i + 1 < |chain| {
        assert FollowsAt(chain, i);
      }
    }
  }

  /** Ghost bookkeeping of the first pass: the link of every registered error, the state of every
      representative, and the error it stands for. */
  datatype Register = Register(links: map<ErrorNode, ChainLink>, reps: Heap, owner: map<ErrorNode, ErrorNode>)

  /** The heap agrees with the bookkeeping: representatives are as recorded, and the errors that are
      not registered are as they were. */
  ghost predicate HeapAgrees(before: Heap, reg: Register)
    reads before.Keys, reg.reps.Keys
  {
    && (forall r :: r in reg.reps ==> r.Look() == reg.reps[r])
    && (forall n :: n in before && n !in reg.links ==> n.Look() == before[n])
  }

  /** The state of the first pass. */
  ghost predicate Pass(before: Heap, chain: seq<ChainLink>, seen: map<ErrorNode, ErrorNode>, reg: Register, clean: Cleaner)
    reads before.Keys, reg.reps.Keys
  {
    && LinksDone(before, reg.links, reg.reps, reg.owner, clean)
    && HeapAgrees(before, reg)
    && Listed(chain, seen, reg.links)
    && InOrder(chain)
  }

  /** Registers the next error of the walk. */
  method RegisterNext(cursor: ErrorNode, values: seq<string>, ghost clean: Cleaner, ghost before: Heap,
                      chain: seq<ChainLink>, seen: map<ErrorNode, ErrorNode>, ghost reg: Register)
    returns (link: ChainLink, ghost next: Register)
    requires IsRedactor(clean, ValueSet(values))
    requires Pass(before, chain, seen, reg, clean)
    requires cursor in before && cursor !in seen && cursor !in reg.reps
    requires chain != [] ==> LeadsTo(chain[|chain| - 1], cursor)
    modifies cursor
    ensures link.node == cursor
    ensures Pass(before, chain + [link], seen[cursor := link.representative], next, clean)
    ensures link.representative == cursor || fresh(link.representative)
    ensures next.reps.Keys == reg.reps.Keys + {link.representative}
    ensures link.hasCause ==> link.rawCause == before[cursor].cause
  {
    link := RegisterLink(cursor, values, clean);
    ghost var r := link.representative.Look();
    LinkAdded(before, reg.links, reg.reps, reg.owner, clean, link, r);
    LinkListed(chain, seen, reg.links, link);
    next := Register(reg.links[cursor := link], reg.reps[link.representative := r], reg.owner[link.representative := cursor]);
  }

  /** Pass 1: registers a representative for every error of the chain; stops at the end of the chain
      or where it runs back into itself. */
  method RegisterChain(error: ErrorNode, values: seq<string>, ghost clean: Cleaner, ghost before: Heap)
    returns (chain: seq<ChainLink>, seen: map<ErrorNode, ErrorNode>, ghost reg: Register)
    requires IsRedactor(clean, ValueSet(values))
    requires error in before && Closed(before) && Shows(before)
    modifies before.Keys
    ensures Pass(before, chain, seen, reg, clean)
    ensures chain != [] && chain[0].node == error && EndsInside(chain[|chain| - 1], seen)
    ensures seen.Keys <= before.Keys && forall r :: r in reg.reps ==> r in seen || fresh(r)
  {
    chain, seen, reg := [], map[], Register(map[], map[], map[]);
    var cursor := error;
    while cursor !in seen
      invariant cursor in before && seen.Keys <= before.Keys
      invariant Pass(before, chain, seen, reg, clean)
      invariant chain == [] ==> cursor == error && seen == map[]
      invariant chain != [] ==> chain[0].node == error && LeadsTo(chain[|chain| - 1], cursor)
      invariant forall r :: r in reg.reps ==> r in seen || fresh(r)
      decreases before.Keys - seen.Keys
    {
      assert cursor in before.Keys - seen.Keys;
      var link;
      link, reg := RegisterNext(cursor, values, clean, before, chain, seen, reg);
      chain, seen := chain + [link], seen[cursor := link.representative];
      assert chain[|chain| - 1] == link;
      if !link.hasCause || !link.rawCause.Link? {
        break;
      }
      cursor := link.rawCause.node;
    }
    assert chain != [];
  }

  /** Behind every link comes a registered error, or none. */
  lemma LinksStayInside(chain: seq<ChainLink>, seen: map<ErrorNode, ErrorNode>, links: map<ErrorNode, ChainLink>)
    requires chain != [] && Listed(chain, seen, links) && InOrder(chain) && EndsInside(chain[|chain| - 1], seen)
    ensures forall n {:trigger links[n]} :: n in links ==> EndsInside(links[n], seen)
  {
    forall n | n in links ensures EndsInside(links[n], seen) {
      assert links[n] in chain;
      var i: nat :| i < |chain| && chain[i] == links[n];
      if i + 1 < |chain| {
        assert FollowsAt(chain, i);
        assert chain[i + 1] in chain;
      }
    }
  }

  /** The cause a representative ends with. */
  ghost function WiredCause(before: Heap, link: ChainLink, seen: map<ErrorNode, ErrorNode>, clean: Cleaner): Cause {
    if link.node in before then CleanCause(FollowedCause(before[link.node], clean), seen, clean) else Absent
  }

  /** Wires one representative to the representative of its child. */
  method WireCause(link: ChainLink, values: seq<string>, seen: map<ErrorNode, ErrorNode>,
                   ghost clean: Cleaner, ghost before: Heap, ghost r: View)
    requires IsRedactor(clean, ValueSet(values)) && EndsInside(link, seen)
    requires link.node in before && Registered(before[link.node], link, r, clean)
    requires var now := link.representative.Look();
      now == r || now == r.(cause := WiredCause(before, link, seen, clean))
    modifies link.representative`cause
    ensures link.representative.cause == WiredCause(before, link, seen, clean)
  {
    if !link.hasCause {
      return;
    }
    var child := link.rawCause;
    match link.rawCause {
      case Link(node) => child := Link(seen[node]);
      case Other(text) =>
        var flat := CoerceRedacted(text, values, clean);
        child := Other(Some(flat));
      case _ =>
    }
    if link.representative.traits.cause == Accepts {
      link.representative.cause := child;
    }
  }

  /** The representatives in `wired` have their final cause; the others are as the first pass left them. */
  ghost predicate WiredUpTo(before: Heap, seen: map<ErrorNode, ErrorNode>, reg: Register, wired: set<ErrorNode>, clean: Cleaner)
    reads reg.reps.Keys
  {
    forall n {:trigger Has(reg.links, n)} :: n in reg.links && Has(reg.links, n) && reg.links[n].representative in reg.reps ==>
      var link := reg.links[n];
      link.representative.Look() == (if n in wired
        then reg.reps[link.representative].(cause := WiredCause(before, link, seen, clean))
        else reg.reps[link.representative])
  }

  /** Pass 2: wires every cause. */
  method WireCauses(chain: seq<ChainLink>, values: seq<string>, seen: map<ErrorNode, ErrorNode>,
                    ghost clean: Cleaner, ghost before: Heap, ghost reg: Register)
    requires IsRedactor(clean, ValueSet(values))
    requires chain != [] && Pass(before, chain, seen, reg, clean) && EndsInside(chain[|chain| - 1], seen)
    modifies reg.reps.Keys
    ensures WiredUpTo(before, seen, reg, seen.Keys, clean)
  {
    LinksStayInside(chain, seen, reg.links);
    ghost var wired: set<ErrorNode> := {};
    for i := 0 to |chain|
      invariant WiredUpTo(before, seen, reg, wired, clean)
      invariant forall j :: 0 <= j < i ==> chain[j].node in wired
      invariant forall n :: n in wired ==> n in seen
    {
      var link := chain[i];
      assert link in chain && reg.links[link.node] == link;
      assert Has(reg.links, link.node);
      wired := WireNext(link, values, seen, clean, before, reg, wired);
    }
    assert forall n :: n in seen ==> n in wired by {
      forall n | n in seen ensures n in wired {
        assert Has(reg.links, n) && reg.links[n] in chain;
      }
    }
  }

  method WireNext(link: ChainLink, values: seq<string>, seen: map<ErrorNode, ErrorNode>,
                  ghost clean: Cleaner, ghost before: Heap, ghost reg: Register, ghost wired: set<ErrorNode>)
    returns (ghost next: set<ErrorNode>)
    requires IsRedactor(clean, ValueSet(values)) && EndsInside(link, seen)
    requires LinksDone(before, reg.links, reg.reps, reg.owner, clean)
    requires link.node in reg.links && reg.links[link.node] == link
    requires WiredUpTo(before, seen, reg, wired, clean)
    modifies link.representative`cause
    ensures next == wired + {link.node} && WiredUpTo(before, seen, reg, next, clean)
  {
    next := wired + {link.node};
    assert Has(reg.links, link.node);
    WireCause(link, values, seen, clean, before, reg.reps[link.representative]);
  }

  method ScrubValuesFromErrorChain(error: ErrorNode, values: seq<string>, ghost before: Heap)
    returns (head: ErrorNode, ghost rep: map<ErrorNode, ErrorNode>, ghost after: Heap, ghost walked: seq<ErrorNode>)
    requires error in before && Closed(before) && Shows(before)
    modifies before.Keys
    // Every error of the walk has its representative, and the head is that of the given error.
    ensures error in rep && head == rep[error]
    ensures Shows(after) && Scrubbed(before, after, rep, Redactor(ValueSet(values)))
    // Only the errors of the chain are touched; the representatives are those errors or new ones.
    ensures WalkOf(before, error, walked, Redactor(ValueSet(values))) && forall n :: n in rep <==> n in walked
    ensures forall r :: r in after ==> r in rep || fresh(r)
    ensures forall n :: n in before && n !in rep ==> n.Look() == before[n]
  {
    ghost var clean := Redactor(ValueSet(values));
    var chain, seen;
    ghost var reg;
    chain, seen, reg := RegisterChain(error, values, clean, before);
    WireCauses(chain, values, seen, clean, before, reg);
    rep := seen;
    after := map r | r in reg.reps :: r.Look();
    walked := PassIsWalk(before, error, chain, seen, reg, clean);
    PassIsScrub(before, after, chain, seen, reg, clean);
    head := seen[error];
  }

  lemma PassIsWalk(before: Heap, error: ErrorNode, chain: seq<ChainLink>, seen: map<ErrorNode, ErrorNode>, reg: Register,
                   clean: Cleaner) returns (walked: seq<ErrorNode>)
    requires LinksDone(before, reg.links, reg.reps, reg.owner, clean) && Listed(chain, seen, reg.links) && InOrder(chain)
    requires chain != [] && chain[0].node == error
    ensures WalkOf(before, error, walked, clean) && forall n :: n in seen <==> n in walked
  {
    walked := seq(|chain|, i requires 0 <= i < |chain| => chain[i].node);
    forall i | 0 <= i < |chain| ensures walked[i] in before && walked[i] in seen {
      assert chain[i] in chain && Has(reg.links, chain[i].node);
    }
    forall i: nat | i + 1 < |walked| ensures Follows(before, walked, i, clean) {
      assert FollowsAt(chain, i);
      assert chain[i] in chain && Has(reg.links, chain[i].node);
    }
    forall n | n in seen ensures n in walked {
      assert reg.links[n] in chain && Has(reg.links, n);
      var i :| 0 <= i < |chain| && chain[i] == reg.links[n];
      assert walked[i] == n;
    }
  }

  lemma PassIsScrub(before: Heap, after: Heap, chain: seq<ChainLink>, seen: map<ErrorNode, ErrorNode>, reg: Register,
                    clean: Cleaner)
    requires LinksDone(before, reg.links, reg.reps, reg.owner, clean) && Listed(chain, seen, reg.links)
    requires InOrder(chain) && chain != [] && EndsInside(chain[|chain| - 1], seen)
    requires after.Keys == reg.reps.Keys
    requires forall n :: n in reg.links && Has(reg.links, n) && reg.links[n].representative in reg.reps ==>
      after[reg.links[n].representative]
        == reg.reps[reg.links[n].representative].(cause := WiredCause(before, reg.links[n], seen, clean))
    ensures Scrubbed(before, after, seen, clean)
  {
    LinksStayInside(chain, seen, reg.links);
    forall n | n in seen ensures ScrubbedAt(before, after, seen, clean, n) {
      assert Has(reg.links, n) && seen[n] == reg.links[n].representative;
      assert EndsInside(reg.links[n], seen);
    }
    forall m, n | m in seen && n in seen && m != n ensures seen[m] != seen[n] {
      assert Has(reg.links, m) && Has(reg.links, n);
      assert seen[m] == reg.links[m].representative && seen[n] == reg.links[n].representative;
    }
  }

  // ---------- What the scrub means for a reader of the chain ----------

  /** The error reached by following `k` causes from `n`, if the chain is that long. */
  ghost function Follow(h: Heap, n: ErrorNode, k: nat): Option<ErrorNode> {
    if n !in h then None
    else if k == 0 then Some(n)
    else if h[n].cause.Link? then Follow(h, h[n].cause.node, k - 1) else None
  }

  /** The same in the original, where the walk ends at an error that could not be inspected. */
  ghost function FollowOriginal(h: Heap, n: ErrorNode, k: nat, clean: Cleaner): Option<ErrorNode> {
    if n !in h then None
    else if k == 0 then Some(n)
    else
      var cause := FollowedCause(h[n], clean);
      if cause.Link? then FollowOriginal(h, cause.node, k - 1, clean) else None
  }

  /** The scrubbed chain has the shape of the original, cycles included: step by step it runs through
      the representatives of the errors the original runs through. */
  lemma {:induction false} ShapeKept(before: Heap, after: Heap, rep: map<ErrorNode, ErrorNode>, clean: Cleaner, n: ErrorNode, k: nat)
    requires Scrubbed(before, after, rep, clean) && n in rep
    ensures match FollowOriginal(before, n, k, clean)
      case None => Follow(after, rep[n], k) == None
      case Some(m) => m in rep && Follow(after, rep[n], k) == Some(rep[m])
    decreases k
  {
    assert ScrubbedAt(before, after, rep, clean, n);
    if k > 0 {
      var cause := FollowedCause(before[n], clean);
      if cause.Link? {
        ShapeKept(before, after, rep, clean, cause.node, k - 1);
      }
    }
  }

  /** An original that did not become its own representative cannot be reached from the result. */
  lemma OriginalsUnreachable(before: Heap, after: Heap, rep: map<ErrorNode, ErrorNode>, clean: Cleaner,
                             n: ErrorNode, k: nat, original: ErrorNode)
    requires Scrubbed(before, after, rep, clean) && n in rep
    requires original in before && FateOf(before[original], clean) != InPlace
    ensures Follow(after, rep[n], k) != Some(original)
  {
    ShapeKept(before, after, rep, clean, n, k);
    var reached := FollowOriginal(before, n, k, clean);
    if reached.Some? {
      assert ScrubbedAt(before, after, rep, clean, reached.value);
    }
  }

  ghost predicate ShownIn(shown: seq<Shown>, value: string) {
    exists i :: 0 <= i < |shown| && Contains(shown[i].text, value)
  }

  /** `value` cannot be read in anything an error shows. */
  ghost predicate ShowsNothingOf(v: View, value: string) {
    && !Contains(v.texts.name, value) && !Contains(v.texts.message, value)
    && (v.texts.stack.Some? ==> !Contains(v.texts.stack.value, value))
    && v.extras == []
    && (v.contract.Some? ==> ContractShowsNothingOf(v.contract.value, value))
    && (v.cause.Other? ==> v.cause.text.Some? && !Contains(v.cause.text.value, value))
  }

  ghost predicate ContractShowsNothingOf(c: Contract, value: string) {
    !Contains(c.code, value) && !Contains(c.status, value) && !ShownIn(c.response, value) && !ShownIn(c.options, value)
  }

  /** What a scrub leaves of `value` in an error: an exception that stays in place keeps its code and its
      status, and one that cannot be inspected is replaced by one with a fixed name. */
  ghost predicate Keeps(v: View, clean: Cleaner, value: string) {
    match FateOf(v, clean)
    case InPlace => v.contract.Some? && (Contains(v.contract.value.code, value) || Contains(v.contract.value.status, value))
    case Copied => false
    case Withheld => Contains("Error", value)
  }

  /** A value that redaction removes without trace from every text. */
  ghost predicate Removable(value: string) {
    value != "" && !OverlapsMarker(value)
  }

  lemma ResponseShowsNothing(response: seq<Shown>, values: set<string>, value: string)
    requires value in values && Removable(value)
    ensures !ShownIn(CleanResponse(response, Redactor(values)), value)
  {
    var clean := Redactor(values);
    MarkerCarriesNothing(value);
    forall i | 0 <= i < |response| ensures !Contains(CleanShown(response[i], clean).text, value) {
      NoSurvivor(response[i].text, values, value);
    }
  }

  lemma TextsShowNothing(texts: Texts, values: set<string>, value: string)
    requires value in values && Removable(value)
    ensures var redacted := RedactedTexts(texts, Redactor(values));
      && !Contains(redacted.name, value) && !Contains(redacted.message, value)
      && (redacted.stack.Some? ==> !Contains(redacted.stack.value, value))
  {
    NoSurvivor(texts.name, values, value);
    NoSurvivor(texts.message, values, value);
    if texts.stack.Some? {
      NoSurvivor(texts.stack.value, values, value);
    }
  }

  lemma CauseShowsNothing(text: Option<string>, values: set<string>, value: string)
    requires value in values && Removable(value)
    ensures !Contains(CleanOther(text, Redactor(values)), value)
  {
    MarkerCarriesNothing(value);
    if text.Some? {
      NoSurvivor(text.value, values, value);
    }
  }

  /** A declared value that redaction removes can be read in what became of an error, if and only if the
      error keeps it. */
  lemma LinkShowsIff(before: Heap, after: Heap, rep: map<ErrorNode, ErrorNode>, values: set<string>, m: ErrorNode, value: string)
    requires Scrubbed(before, after, rep, Redactor(values)) && m in rep && value in values && Removable(value)
    ensures m in before && rep[m] in after && (ShowsNothingOf(after[rep[m]], value) <==> !Keeps(before[m], Redactor(values), value))
  {
    var v := before[m];
    assert ScrubbedAt(before, after, rep, Redactor(values), m);
    MarkerCarriesNothing(value);
    TextsShowNothing(v.texts, values, value);
    if v.contract.Some? {
      ResponseShowsNothing(v.contract.value.response, values, value);
    }
    if v.cause.Other? {
      CauseShowsNothing(v.cause.text, values, value);
    }
  }

  /** Step by step along the scrubbed chain: the value can be read there, if and only if the original that
      is reached by as many steps keeps it. */
  lemma ChainShowsIff(before: Heap, after: Heap, rep: map<ErrorNode, ErrorNode>, values: set<string>, n: ErrorNode, k: nat, value: string)
    requires Scrubbed(before, after, rep, Redactor(values)) && n in rep && value in values && Removable(value)
    ensures match FollowOriginal(before, n, k, Redactor(values))
      case None => Follow(after, rep[n], k) == None
      case Some(m) =>
        && m in before && m in rep && rep[m] in after && Follow(after, rep[n], k) == Some(rep[m])
        && (ShowsNothingOf(after[rep[m]], value) <==> !Keeps(before[m], Redactor(values), value))
  {
    ShapeKept(before, after, rep, Redactor(values), n, k);
    var reached := FollowOriginal(before, n, k, Redactor(values));
    if reached.Some? {
      LinkShowsIff(before, after, rep, values, reached.value, value);
    }
  }
}
