/** `cloneRedacted`: a redacted copy of an arbitrary graph of plain objects. */
module CloneGraph {
  import opened Options
  import opened Text
  import opened Redaction
  import opened RedactionLaws

  /** A property value: a string, a number or bigint with its string form, any other primitive, or an
      object. */
  datatype Value = Str(text: string) | Number(shown: string) | Primitive(token: int) | Ref(obj: ObjNode)

  /** An own property; an accessor has no value to read. */
  datatype Entry = Entry(key: string, value: Option<Value>, enumerable: bool)

  /** Everything there is to see of an object. `hidden` says that listing its properties throws. */
  datatype View = Seen(isArray: bool, own: seq<Entry>, hidden: bool)

  class ObjNode {
    const isArray: bool
    const hidden: bool
    var own: seq<Entry>

    ghost function Look(): View
      reads this
    {
      Seen(isArray, own, hidden)
    }

    constructor (isArray: bool)
      ensures Look() == Seen(isArray, [], false)
    {
      this.isArray, hidden, own := isArray, false, [];
    }

    /** Defines an enumerable, configurable data property: an existing one keeps its place. */
    method DefineProperty(key: string, value: Value)
      modifies this
      ensures own == Defined(old(own), key, value)
    {
      own := Defined(own, key, value);
    }
  }

  type Heap = map<ObjNode, View>

  ghost predicate Shows(h: Heap)
    reads h.Keys
  {
    forall n :: n in h ==> n.Look() == h[n]
  }

  // ---------- Specification ----------

  function Defined(own: seq<Entry>, key: string, value: Value): seq<Entry> {
    if own == [] then [Entry(key, Some(value), true)]
    else if own[0].key == key then [Entry(key, Some(value), true)] + own[1..]
    else [own[0]] + Defined(own[1..], key, value)
  }

  /** The properties the clone copies: the enumerable ones, or none when listing them throws. */
  function Enumerable(own: seq<Entry>): seq<Entry> {
    if own == [] then []
    else (if own[0].enumerable then [own[0]] else []) + Enumerable(own[1..])
  }

  function Visible(v: View): seq<Entry> {
    if v.hidden then [] else Enumerable(v.own)
  }

  /** The clone of a value, given the clones of the objects. */
  ghost function CloneOf(value: Value, image: map<ObjNode, ObjNode>, clean: Cleaner): Value {
    match value
    case Str(text) => Str(clean(text))
    case Number(shown) => if clean(shown) == shown then value else Str(MARKER)
    case Primitive(_) => value
    case Ref(obj) => if obj in image then Ref(image[obj]) else value
  }

  ghost function CloneOfEntry(entry: Entry, image: map<ObjNode, ObjNode>, clean: Cleaner): Value {
    if entry.value.Some? then CloneOf(entry.value.value, image, clean) else Str(MARKER)
  }

  /** The properties of a clone: every key and value redacted, a later key over an earlier equal one. */
  ghost function CloneOfEntries(entries: seq<Entry>, image: map<ObjNode, ObjNode>, clean: Cleaner): seq<Entry> {
    if entries == [] then []
    else
      var last := entries[|entries| - 1];
      Defined(CloneOfEntries(entries[..|entries| - 1], image, clean), clean(last.key), CloneOfEntry(last, image, clean))
  }

  predicate ValueIn(value: Value, nodes: set<ObjNode>) {
    value.Ref? ==> value.obj in nodes
  }

  predicate EntriesIn(entries: seq<Entry>, nodes: set<ObjNode>) {
    forall e :: e in entries && e.value.Some? ==> ValueIn(e.value.value, nodes)
  }

  /** A set of objects that no visible property leaves. */
  predicate ClosedSet(h: Heap, nodes: set<ObjNode>) {
    forall n :: n in nodes && n in h ==> EntriesIn(Visible(h[n]), nodes)
  }

  /** A set of objects that holds the root and that no visible property leaves. */
  predicate Encloses(h: Heap, root: Value, nodes: set<ObjNode>) {
    ClosedSet(h, nodes) && ValueIn(root, nodes)
  }

  /** All of `keys` can be reached from the root: they are in every set that encloses it. */
  ghost predicate ReachedOnly(h: Heap, root: Value, keys: set<ObjNode>) {
    forall nodes: set<ObjNode> | nodes <= h.Keys && Encloses(h, root, nodes) :: keys <= nodes
  }

  /** `image` maps every object reachable from `root`, and no other, to an object of its own, whose
      properties in `made` are the redacted clone of those of the source. */
  ghost predicate Cloned(h: Heap, made: Heap, root: Value, image: map<ObjNode, ObjNode>, clean: Cleaner) {
    && image.Keys <= h.Keys && ValueIn(root, image.Keys) && ClosedSet(h, image.Keys)
    && ReachedOnly(h, root, image.Keys)
    && (forall m, n :: m in image && n in image && m != n ==> image[m] != image[n])
    && (forall n {:trigger image[n]} :: n in image ==>
          && image[n] !in h && image[n] in made
          && made[image[n]] == Seen(h[n].isArray, CloneOfEntries(Visible(h[n]), image, clean), false))
  }

  // ---------- The algorithm ----------

  datatype Job = Job(source: ObjNode, target: ObjNode)

  /** The objects there were before the clone began (`base`). Of the objects met since: the sources their
      clones belong to, what the clones hold by now, and which are finished. */
  datatype Ledger = Ledger(base: set<ObjNode>, owner: map<ObjNode, ObjNode>, built: map<ObjNode, seq<Entry>>, done: set<ObjNode>)

  ghost predicate Known(h: Heap, root: Value, seen: map<ObjNode, ObjNode>, led: Ledger) {
    && seen.Keys <= h.Keys && led.built.Keys == seen.Keys && led.done <= seen.Keys
    && (forall n {:trigger seen[n]} :: n in seen ==> seen[n] in led.owner && led.owner[seen[n]] == n && seen[n] !in led.base)
    && h.Keys <= led.base
    && ReachedOnly(h, root, seen.Keys)
  }

  /** The clones hold what the ledger says. */
  ghost predicate Holds(h: Heap, seen: map<ObjNode, ObjNode>, led: Ledger)
    reads seen.Values
  {
    forall n {:trigger seen[n]} :: n in seen && n in h && n in led.built ==>
      seen[n] in seen.Values && seen[n].Look() == Seen(h[n].isArray, led.built[n], false)
  }

  /** Finished clones are complete. */
  ghost predicate Finished(h: Heap, seen: map<ObjNode, ObjNode>, led: Ledger, clean: Cleaner) {
    forall n {:trigger IsDone(led, n)} :: n in led.done && IsDone(led, n) && n in h && n in led.built ==>
      EntriesIn(Visible(h[n]), seen.Keys) && led.built[n] == CloneOfEntries(Visible(h[n]), seen, clean)
  }

  ghost predicate IsDone(led: Ledger, n: ObjNode) {
    n in led.done
  }

  ghost predicate HasJob(pending: seq<Job>, n: ObjNode) {
    exists j :: j in pending && j.source == n
  }

  /** The jobs are the objects met but neither finished nor being worked on, each once, and those
      clones are still empty. */
  ghost predicate Waiting(seen: map<ObjNode, ObjNode>, pending: seq<Job>, led: Ledger, active: set<ObjNode>) {
    && (forall j :: j in pending ==>
          && j.source in seen && seen[j.source] == j.target
          && j.source !in led.done && j.source !in active
          && j.source in led.built && led.built[j.source] == [])
    && (forall i, k :: 0 <= i < k < |pending| ==> pending[i].source != pending[k].source)
    && (forall n :: n in seen && n !in led.done && n !in active ==> HasJob(pending, n))
  }

  ghost predicate State(h: Heap, root: Value, seen: map<ObjNode, ObjNode>, pending: seq<Job>, led: Ledger,
                        active: set<ObjNode>, clean: Cleaner) {
    && Known(h, root, seen, led)
    && Finished(h, seen, led, clean)
    && Waiting(seen, pending, led, active)
  }

  ghost predicate Extends(seen: map<ObjNode, ObjNode>, more: map<ObjNode, ObjNode>) {
    forall n :: n in seen ==> n in more && more[n] == seen[n]
  }

  /** Meeting more objects does not change the clone of entries whose objects were met before. */
  lemma {:induction false} CloneStable(entries: seq<Entry>, seen: map<ObjNode, ObjNode>, more: map<ObjNode, ObjNode>, clean: Cleaner)
    requires Extends(seen, more) && EntriesIn(entries, seen.Keys)
    ensures EntriesIn(entries, more.Keys) && CloneOfEntries(entries, seen, clean) == CloneOfEntries(entries, more, clean)
  {
    if entries != [] {
      CloneStable(entries[..|entries| - 1], seen, more, clean);
      assert entries[|entries| - 1] in entries;
    }
  }

  lemma ValueStable(value: Value, seen: map<ObjNode, ObjNode>, more: map<ObjNode, ObjNode>, clean: Cleaner)
    requires Extends(seen, more) && ValueIn(value, seen.Keys)
    ensures ValueIn(value, more.Keys) && CloneOf(value, seen, clean) == CloneOf(value, more, clean)
  {
  }

  lemma FinishedStable(h: Heap, seen: map<ObjNode, ObjNode>, more: map<ObjNode, ObjNode>, led: Ledger, more_led: Ledger, clean: Cleaner)
    requires Finished(h, seen, led, clean) && Extends(seen, more)
    requires more_led.done == led.done && led.done <= led.built.Keys
    requires forall n :: n in led.done ==> n in more_led.built && more_led.built[n] == led.built[n]
    ensures Finished(h, more, more_led, clean)
  {
    forall n | n in led.done && n in h
      ensures EntriesIn(Visible(h[n]), more.Keys) && more_led.built[n] == CloneOfEntries(Visible(h[n]), more, clean)
    {
      assert IsDone(led, n);
      CloneStable(Visible(h[n]), seen, more, clean);
    }
  }

  /** A new object: it gets an empty clone and a job. */
  lemma StateGrows(h: Heap, root: Value, seen: map<ObjNode, ObjNode>, pending: seq<Job>, led: Ledger,
                   active: set<ObjNode>, clean: Cleaner, obj: ObjNode, target: ObjNode)
    requires State(h, root, seen, pending, led, active, clean)
    requires obj in h && obj !in seen && obj !in active && target !in led.base && target !in led.owner
    requires ReachedOnly(h, root, {obj})
    ensures State(h, root, seen[obj := target], pending + [Job(obj, target)],
                  led.(owner := led.owner[target := obj], built := led.built[obj := []]), active, clean)
  {
    var led' := led.(owner := led.owner[target := obj], built := led.built[obj := []]);
    KnownGrows(h, root, seen, led, obj, target);
    FinishedStable(h, seen, seen[obj := target], led, led', clean);
    WaitingGrows(seen, pending, led, active, obj, target);
  }

  lemma ReachedBoth(h: Heap, root: Value, keys: set<ObjNode>, obj: ObjNode)
    requires ReachedOnly(h, root, keys) && ReachedOnly(h, root, {obj})
    ensures ReachedOnly(h, root, keys + {obj})
  {
    forall nodes: set<ObjNode> | nodes <= h.Keys && Encloses(h, root, nodes) ensures keys + {obj} <= nodes {
      assert {obj} <= nodes && obj in {obj};
    }
  }

  lemma KnownGrows(h: Heap, root: Value, seen: map<ObjNode, ObjNode>, led: Ledger, obj: ObjNode, target: ObjNode)
    requires Known(h, root, seen, led)
    requires obj in h && obj !in seen && target !in led.base && target !in led.owner && ReachedOnly(h, root, {obj})
    ensures Known(h, root, seen[obj := target], led.(owner := led.owner[target := obj], built := led.built[obj := []]))
  {
    ReachedBoth(h, root, seen.Keys, obj);
    assert seen[obj := target].Keys == seen.Keys + {obj};
  }

  lemma WaitingGrows(seen: map<ObjNode, ObjNode>, pending: seq<Job>, led: Ledger, active: set<ObjNode>, obj: ObjNode, target: ObjNode)
    requires Waiting(seen, pending, led, active)
    requires obj !in seen && obj !in active && obj !in led.done
    ensures Waiting(seen[obj := target], pending + [Job(obj, target)],
                    led.(owner := led.owner[target := obj], built := led.built[obj := []]), active)
  {
    var seen', pending' := seen[obj := target], pending + [Job(obj, target)];
    assert forall j :: j in pending' ==> j in pending || j == Job(obj, target);
    forall i | 0 <= i < |pending| ensures pending[i].source != obj {
      assert pending[i] in pending;
    }
    forall n | n in seen' && n !in led.done && n !in active ensures HasJob(pending', n) {
      if n == obj {
        assert pending'[|pending|].source == n;
      } else {
        assert HasJob(pending, n);
        var j :| j in pending && j.source == n;
        assert j in pending';
      }
    }
  }

  /** The recursive part of the clone: a known object answers its clone, a new one gets a job. */
  method CloneValue(value: Value, values: seq<string>, seen: map<ObjNode, ObjNode>, pending: seq<Job>,
                    ghost clean: Cleaner, ghost h: Heap, ghost root: Value, ghost led: Ledger, ghost active: set<ObjNode>)
    returns (copy: Value, more: map<ObjNode, ObjNode>, jobs: seq<Job>, ghost next: Ledger)
    requires IsRedactor(clean, ValueSet(values)) && Shows(h)
    requires State(h, root, seen, pending, led, active, clean) && Holds(h, seen, led) && active <= seen.Keys
    requires ValueIn(value, h.Keys) && (value.Ref? ==> ReachedOnly(h, root, {value.obj}))
    ensures State(h, root, more, jobs, next, active, clean) && Holds(h, more, next)
    ensures Extends(seen, more) && next.base == led.base
    ensures ValueIn(value, more.Keys) && copy == CloneOf(value, more, clean)
    ensures next.done == led.done && forall n :: n in led.built ==> n in next.built && next.built[n] == led.built[n]
  {
    more, jobs, next := seen, pending, led;
    match value {
      case Str(text) =>
        var redacted := RedactValues(text, values);
        copy := Str(redacted);
      case Number(shown) =>
        var redacted := RedactValues(shown, values);
        copy := if redacted == shown then value else Str(MARKER);
      case Primitive(_) =>
        copy := value;
      case Ref(obj) =>
        if obj in seen {
          copy := Ref(seen[obj]);
        } else {
          var target := new ObjNode(obj.isArray);
          StateGrows(h, root, seen, pending, led, active, clean, obj, target);
          more, jobs := seen[obj := target], pending + [Job(obj, target)];
          next := led.(owner := led.owner[target := obj], built := led.built[obj := []]);
          copy := Ref(target);
        }
    }
  }

  /** Taking the last job. */
  lemma JobTaken(seen: map<ObjNode, ObjNode>, pending: seq<Job>, led: Ledger)
    requires pending != [] && Waiting(seen, pending, led, {})
    ensures Waiting(seen, pending[..|pending| - 1], led, {pending[|pending| - 1].source})
  {
    var job, rest := pending[|pending| - 1], pending[..|pending| - 1];
    assert pending == rest + [job];
    forall i | 0 <= i < |rest| ensures rest[i].source != job.source {
      assert pending[i] == rest[i];
    }
    forall n | n in seen && n !in led.done && n != job.source ensures HasJob(rest, n) {
      assert HasJob(pending, n);
    }
  }

  /** Writing into the clone that is being worked on. */
  lemma ActiveWritten(h: Heap, root: Value, seen: map<ObjNode, ObjNode>, pending: seq<Job>, led: Ledger,
                      source: ObjNode, own: seq<Entry>, clean: Cleaner)
    requires State(h, root, seen, pending, led, {source}, clean) && source in seen && source !in led.done
    ensures State(h, root, seen, pending, led.(built := led.built[source := own]), {source}, clean)
  {
    var led' := led.(built := led.built[source := own]);
    FinishedStable(h, seen, seen, led, led', clean);
    forall n | n in seen && n !in led'.done && n != source ensures HasJob(pending, n) {
    }
  }

  /** The clone that is being worked on is complete. */
  lemma ActiveDone(h: Heap, root: Value, seen: map<ObjNode, ObjNode>, pending: seq<Job>, led: Ledger,
                   source: ObjNode, clean: Cleaner)
    requires State(h, root, seen, pending, led, {source}, clean) && source in seen && source in h && source in led.built
    requires EntriesIn(Visible(h[source]), seen.Keys)
    requires led.built[source] == CloneOfEntries(Visible(h[source]), seen, clean)
    ensures State(h, root, seen, pending, led.(done := led.done + {source}), {}, clean)
  {
    var led' := led.(done := led.done + {source});
    forall n | n in seen && n !in led'.done ensures HasJob(pending, n) {
      assert n != source;
    }
    forall n | n in led'.done && n in h
      ensures EntriesIn(Visible(h[n]), seen.Keys) && led.built[n] == CloneOfEntries(Visible(h[n]), seen, clean)
    {
      if n != source {
        assert IsDone(led, n);
      }
    }
  }

  /** What the visible properties of a reached object refer to is reached. */
  lemma ReachedThrough(h: Heap, root: Value, keys: set<ObjNode>, source: ObjNode, e: Entry)
    requires ReachedOnly(h, root, keys) && ClosedSet(h, h.Keys) && source in keys && source in h
    requires e in Visible(h[source]) && e.value.Some? && e.value.value.Ref?
    ensures e.value.value.obj in h && ReachedOnly(h, root, {e.value.value.obj})
  {
    assert EntriesIn(Visible(h[source]), h.Keys);
    forall nodes: set<ObjNode> | nodes <= h.Keys && Encloses(h, root, nodes)
      ensures {e.value.value.obj} <= nodes
    {
      assert keys <= nodes;
      assert EntriesIn(Visible(h[source]), nodes);
    }
  }

  /** The first `i` visible properties of the source are in its clone. */
  ghost predicate CopiedUpTo(h: Heap, source: ObjNode, i: nat, seen: map<ObjNode, ObjNode>, led: Ledger, clean: Cleaner) {
    && source in h && source in led.built && i <= |Visible(h[source])|
    && EntriesIn(Visible(h[source])[..i], seen.Keys) && led.built[source] == CloneOfEntries(Visible(h[source])[..i], seen, clean)
  }

  /** Takes up one source: clones its visible properties into its target. */
  method CloneProperties(job: Job, values: seq<string>, seen: map<ObjNode, ObjNode>, pending: seq<Job>,
                         ghost clean: Cleaner, ghost h: Heap, ghost root: Value, ghost led: Ledger)
    returns (more: map<ObjNode, ObjNode>, jobs: seq<Job>, ghost next: Ledger)
    requires IsRedactor(clean, ValueSet(values)) && Shows(h) && ClosedSet(h, h.Keys)
    requires State(h, root, seen, pending, led, {job.source}, clean) && Holds(h, seen, led)
    requires job.source in seen && seen[job.source] == job.target && job.source !in led.done
    requires led.built[job.source] == []
    modifies job.target
    ensures State(h, root, more, jobs, next, {}, clean) && Holds(h, more, next)
    ensures Extends(seen, more) && next.base == led.base
    ensures next.done == led.done + {job.source}
  {
    more, jobs, next := CloneEntries(job, values, seen, pending, clean, h, root, led);
    assert Visible(h[job.source])[..|Visible(h[job.source])|] == Visible(h[job.source]);
    ActiveDone(h, root, more, jobs, next, job.source, clean);
    next := next.(done := next.done + {job.source});
  }

  method CloneEntries(job: Job, values: seq<string>, seen: map<ObjNode, ObjNode>, pending: seq<Job>,
                      ghost clean: Cleaner, ghost h: Heap, ghost root: Value, ghost led: Ledger)
    returns (more: map<ObjNode, ObjNode>, jobs: seq<Job>, ghost next: Ledger)
    requires IsRedactor(clean, ValueSet(values)) && Shows(h) && ClosedSet(h, h.Keys)
    requires State(h, root, seen, pending, led, {job.source}, clean) && Holds(h, seen, led)
    requires job.source in seen && seen[job.source] == job.target && job.source !in led.done && led.built[job.source] == []
    modifies job.target
    ensures State(h, root, more, jobs, next, {job.source}, clean) && Holds(h, more, next)
    ensures Extends(seen, more) && next.base == led.base
    ensures next.done == led.done && CopiedUpTo(h, job.source, |Visible(h[job.source])|, more, next, clean)
  {
    more, jobs, next := seen, pending, led;
    var entries := if job.source.hidden then [] else Enumerable(job.source.own);
    for i := 0 to |entries|
      invariant Shows(h)
      invariant State(h, root, more, jobs, next, {job.source}, clean) && Holds(h, more, next)
      invariant Extends(seen, more) && next.base == led.base
      invariant next.done == led.done && CopiedUpTo(h, job.source, i, more, next, clean)
    {
      more, jobs, next := CloneProperty(entries[i], i, job, values, more, jobs, clean, h, root, next);
    }
  }

  method CloneProperty(e: Entry, ghost i: nat, job: Job, values: seq<string>, seen: map<ObjNode, ObjNode>, pending: seq<Job>,
                       ghost clean: Cleaner, ghost h: Heap, ghost root: Value, ghost led: Ledger)
    returns (more: map<ObjNode, ObjNode>, jobs: seq<Job>, ghost next: Ledger)
    requires IsRedactor(clean, ValueSet(values)) && Shows(h) && ClosedSet(h, h.Keys)
    requires State(h, root, seen, pending, led, {job.source}, clean) && Holds(h, seen, led)
    requires job.source in seen && seen[job.source] == job.target && job.source !in led.done
    requires CopiedUpTo(h, job.source, i, seen, led, clean) && i < |Visible(h[job.source])| && e == Visible(h[job.source])[i]
    modifies job.target
    ensures Shows(h)
    ensures State(h, root, more, jobs, next, {job.source}, clean) && Holds(h, more, next)
    ensures Extends(seen, more) && next.base == led.base
    ensures next.done == led.done && CopiedUpTo(h, job.source, i + 1, more, next, clean)
  {
    var key := RedactValues(e.key, values);
    var copy;
    copy, more, jobs, next := CloneEntryValue(e, job.source, values, seen, pending, clean, h, root, led);
    PropertyAdded(Visible(h[job.source]), i, seen, more, key, copy, clean);
    next := DefineInTarget(job, key, copy, more, jobs, clean, h, root, next);
  }

  method DefineInTarget(job: Job, key: string, copy: Value, seen: map<ObjNode, ObjNode>, pending: seq<Job>,
                        ghost clean: Cleaner, ghost h: Heap, ghost root: Value, ghost led: Ledger)
    returns (ghost next: Ledger)
    requires Shows(h) && State(h, root, seen, pending, led, {job.source}, clean) && Holds(h, seen, led)
    requires job.source in seen && seen[job.source] == job.target && job.source !in led.done
    modifies job.target
    ensures Shows(h) && State(h, root, seen, pending, next, {job.source}, clean) && Holds(h, seen, next)
    ensures next == led.(built := led.built[job.source := Defined(led.built[job.source], key, copy)])
  {
    ActiveWritten(h, root, seen, pending, led, job.source, Defined(led.built[job.source], key, copy), clean);
    next := led.(built := led.built[job.source := Defined(led.built[job.source], key, copy)]);
    job.target.DefineProperty(key, copy);
  }

  lemma PropertyAdded(entries: seq<Entry>, i: nat, seen: map<ObjNode, ObjNode>, more: map<ObjNode, ObjNode>,
                      key: string, copy: Value, clean: Cleaner)
    requires i < |entries| && Extends(seen, more) && EntriesIn(entries[..i], seen.Keys)
    requires key == clean(entries[i].key) && copy == CloneOfEntry(entries[i], more, clean)
    requires entries[i].value.Some? ==> ValueIn(entries[i].value.value, more.Keys)
    ensures EntriesIn(entries[..i + 1], more.Keys)
    ensures CloneOfEntries(entries[..i + 1], more, clean) == Defined(CloneOfEntries(entries[..i], seen, clean), key, copy)
  {
    CloneStable(entries[..i], seen, more, clean);
    assert entries[..i + 1] == entries[..i] + [entries[i]];
  }

  /** The clone of one property value; an accessor is not read but withheld. */
  method CloneEntryValue(e: Entry, source: ObjNode, values: seq<string>, seen: map<ObjNode, ObjNode>, pending: seq<Job>,
                         ghost clean: Cleaner, ghost h: Heap, ghost root: Value, ghost led: Ledger)
    returns (copy: Value, more: map<ObjNode, ObjNode>, jobs: seq<Job>, ghost next: Ledger)
    requires IsRedactor(clean, ValueSet(values)) && Shows(h) && ClosedSet(h, h.Keys)
    requires State(h, root, seen, pending, led, {source}, clean) && Holds(h, seen, led)
    requires source in seen && e in Visible(h[source])
    ensures State(h, root, more, jobs, next, {source}, clean) && Holds(h, more, next)
    ensures Extends(seen, more) && next.base == led.base
    ensures e.value.Some? ==> ValueIn(e.value.value, more.Keys)
    ensures copy == CloneOfEntry(e, more, clean)
    ensures next.done == led.done && forall n :: n in led.built ==> n in next.built && next.built[n] == led.built[n]
  {
    copy, more, jobs, next := Str(MARKER), seen, pending, led;
    if e.value.Some? {
      if e.value.value.Ref? {
        ReachedThrough(h, root, seen.Keys, source, e);
      }
      copy, more, jobs, next := CloneValue(e.value.value, values, seen, pending, clean, h, root, led, {source});
    }
  }

  /** Takes jobs until none is left. The source graph is only read. */
  method CloneRedacted(value: Value, values: seq<string>, ghost h: Heap)
    returns (copy: Value, ghost image: map<ObjNode, ObjNode>, ghost made: Heap)
    requires Shows(h) && ClosedSet(h, h.Keys) && ValueIn(value, h.Keys)
    ensures var clean := Redactor(ValueSet(values));
      copy == CloneOf(value, image, clean) && Cloned(h, made, value, image, clean)
    ensures Shows(made) && fresh(made.Keys)
  {
    ghost var clean := Redactor(ValueSet(values));
    ghost var base := set o: ObjNode {:trigger o.isArray} | allocated(o);
    ghost var led := Ledger(base, map[], map[], {});
    var seen: map<ObjNode, ObjNode>, pending: seq<Job> := map[], [];
    copy, seen, pending, led := CloneValue(value, values, seen, pending, clean, h, value, led, {});
    while pending != []
      invariant State(h, value, seen, pending, led, {}, clean) && Holds(h, seen, led)
      invariant led.base == base
      invariant ValueIn(value, seen.Keys) && copy == CloneOf(value, seen, clean)
      decreases h.Keys - led.done
    {
      var job := pending[|pending| - 1];
      assert job in pending;
      JobTaken(seen, pending, led);
      ghost var before := seen;
      seen, pending, led := CloneProperties(job, values, seen, pending[..|pending| - 1], clean, h, value, led);
      ValueStable(value, before, seen, clean);
    }
    image := seen;
    made := map t | t in seen.Values :: t.Look();
    AllCloned(h, value, seen, led, made, clean);
  }

  lemma AllCloned(h: Heap, root: Value, seen: map<ObjNode, ObjNode>, led: Ledger, made: Heap, clean: Cleaner)
    requires State(h, root, seen, [], led, {}, clean) && ValueIn(root, seen.Keys)
    requires forall n {:trigger seen[n]} :: n in seen && n in h && n in led.built ==>
      seen[n] in made && made[seen[n]] == Seen(h[n].isArray, led.built[n], false)
    ensures Cloned(h, made, root, seen, clean)
  {
    forall n | n in seen ensures n in led.done && IsDone(led, n) {
      assert n !in led.done ==> HasJob([], n);
    }
  }

  // ---------- What a reader of the clone sees ----------

  function Get(own: seq<Entry>, key: string): Option<Value> {
    if own == [] then None
    else if own[0].key == key then own[0].value
    else Get(own[1..], key)
  }

  /** The last source property whose redacted key is `key`. */
  ghost function LastWith(entries: seq<Entry>, key: string, clean: Cleaner): Option<Entry> {
    if entries == [] then None
    else
      var last := entries[|entries| - 1];
      if clean(last.key) == key then Some(last) else LastWith(entries[..|entries| - 1], key, clean)
  }

  lemma {:induction false} GetDefined(own: seq<Entry>, key: string, value: Value, asked: string)
    ensures Get(Defined(own, key, value), asked) == if asked == key then Some(value) else Get(own, asked)
  {
    if own != [] && own[0].key != key {
      GetDefined(own[1..], key, value, asked);
    }
  }

  /** Colliding redacted keys: the clone answers with the last of the colliding properties. */
  lemma {:induction false} LastWins(entries: seq<Entry>, image: map<ObjNode, ObjNode>, clean: Cleaner, key: string)
    ensures Get(CloneOfEntries(entries, image, clean), key) ==
      match LastWith(entries, key, clean)
      case None => None
      case Some(e) => Some(CloneOfEntry(e, image, clean))
  {
    if entries != [] {
      var before, last := entries[..|entries| - 1], entries[|entries| - 1];
      LastWins(before, image, clean, key);
      GetDefined(CloneOfEntries(before, image, clean), clean(last.key), CloneOfEntry(last, image, clean), key);
    }
  }

  /** Defining a property replaces the one of that key where it stands, or adds one at the end. */
  lemma {:induction false} DefinedInPlace(own: seq<Entry>, key: string, value: Value, i: nat)
    requires i <= |own| && (forall j :: 0 <= j < i ==> own[j].key != key) && (i < |own| ==> own[i].key == key)
    ensures Defined(own, key, value) == own[..i] + [Entry(key, Some(value), true)] + if i < |own| then own[i + 1..] else []
  {
    if i > 0 {
      DefinedInPlace(own[1..], key, value, i - 1);
      assert own[..i] == [own[0]] + own[1..][..i - 1];
    }
  }

  /** The property at `i` is enumerable, and the last of those whose redacted key is `key`. */
  ghost predicate LastAt(own: seq<Entry>, i: nat, key: string, values: set<string>) {
    && i < |own| && own[i].enumerable && Redacted(own[i].key, values) == key
    && forall j :: i < j < |own| && own[j].enumerable ==> Redacted(own[j].key, values) != key
  }

  /** What the clone of a property holds: texts redacted, a number kept or withheld, an object by its clone, and
      an accessor withheld. */
  ghost predicate ClonedFrom(e: Entry, copy: Value, image: map<ObjNode, ObjNode>, values: set<string>) {
    match e.value
    case None => copy == Str(MARKER)
    case Some(Str(text)) => copy == Str(Redacted(text, values))
    case Some(Number(shown)) => copy == if Redacted(shown, values) == shown then Number(shown) else Str(MARKER)
    case Some(Primitive(token)) => copy == Primitive(token)
    case Some(Ref(obj)) => obj in image && copy == Ref(image[obj])
  }

  /** The last of the visible properties with a redacted key is the last enumerable one. */
  lemma {:induction false} LastVisible(own: seq<Entry>, key: string, values: set<string>)
    ensures match LastWith(Enumerable(own), key, Redactor(values))
      case None => forall i :: 0 <= i < |own| && own[i].enumerable ==> Redacted(own[i].key, values) != key
      case Some(e) => exists i: nat :: LastAt(own, i, key, values) && own[i] == e
  {
    if own != [] {
      var first, rest := own[0], own[1..];
      LastVisible(rest, key, values);
      LastBehind(if first.enumerable then [first] else [], Enumerable(rest), key, Redactor(values));
      assert forall i :: 0 <= i < |rest| ==> own[i + 1] == rest[i];
      if i: nat :| LastAt(rest, i, key, values) && Some(rest[i]) == LastWith(Enumerable(rest), key, Redactor(values)) {
        assert LastAt(own, i + 1, key, values);
      } else if first.enumerable && Redacted(first.key, values) == key {
        assert LastAt(own, 0, key, values);
      }
    }
  }

  lemma {:induction false} LastBehind(front: seq<Entry>, entries: seq<Entry>, key: string, clean: Cleaner)
    requires |front| <= 1
    ensures LastWith(front + entries, key, clean) ==
      if LastWith(entries, key, clean).Some? then LastWith(entries, key, clean)
      else if front != [] && clean(front[0].key) == key then Some(front[0]) else None
    decreases |entries|
  {
    if entries == [] {
      assert front + entries == front;
    } else {
      var n := |entries| - 1;
      assert (front + entries)[..|front| + n] == front + entries[..n];
      LastBehind(front, entries[..n], key, clean);
    }
  }

  lemma {:induction false} VisibleIn(own: seq<Entry>, i: nat)
    requires i < |own| && own[i].enumerable
    ensures own[i] in Enumerable(own)
  {
    if i > 0 {
      VisibleIn(own[1..], i - 1);
    }
  }

  /** Key by key: the clone of an object answers the clone of the last enumerable property whose redacted key
      that is, and nothing where there is none. It is an array if the source is one; an object whose properties
      cannot be listed becomes an empty one. */
  lemma CloneReadsLast(h: Heap, made: Heap, root: Value, image: map<ObjNode, ObjNode>, values: set<string>, n: ObjNode, key: string)
    requires Cloned(h, made, root, image, Redactor(values)) && n in image
    ensures n in h && image[n] in made && made[image[n]].isArray == h[n].isArray && !made[image[n]].hidden
    ensures h[n].hidden ==> made[image[n]].own == []
    ensures !h[n].hidden ==> match Get(made[image[n]].own, key)
      case None => forall i :: 0 <= i < |h[n].own| && h[n].own[i].enumerable ==> Redacted(h[n].own[i].key, values) != key
      case Some(copy) => exists i: nat :: LastAt(h[n].own, i, key, values) && ClonedFrom(h[n].own[i], copy, image, values)
  {
    var clean, own := Redactor(values), h[n].own;
    if !h[n].hidden {
      LastWins(Enumerable(own), image, clean, key);
      LastVisible(own, key, values);
      if i: nat :| LastAt(own, i, key, values) && Some(own[i]) == LastWith(Enumerable(own), key, clean) {
        VisibleIn(own, i);
        assert EntriesIn(Visible(h[n]), image.Keys);
        assert ClonedFrom(own[i], CloneOfEntry(own[i], image, clean), image, values);
      }
    }
  }

  predicate UniqueKeys(own: seq<Entry>) {
    forall i, j :: 0 <= i < j < |own| ==> own[i].key != own[j].key
  }

  lemma {:induction false} DefinedKeys(own: seq<Entry>, key: string, value: Value)
    requires UniqueKeys(own)
    ensures UniqueKeys(Defined(own, key, value))
    ensures forall e :: e in Defined(own, key, value) ==> e == Entry(key, Some(value), true) || e in own
  {
    if own != [] && own[0].key != key {
      DefinedKeys(own[1..], key, value);
      var rest := Defined(own[1..], key, value);
      forall j | 0 <= j < |rest| ensures rest[j].key != own[0].key {
        assert rest[j] in rest;
      }
    }
  }

  /** `value` cannot be read in a property of a clone, neither in its key nor in what it holds. */
  predicate Hides(e: Entry, value: string) {
    && e.value.Some? && e.enumerable
    && IndexOf(e.key, value, 0) == -1
    && (e.value.value.Str? ==> IndexOf(e.value.value.text, value, 0) == -1)
    && (e.value.value.Number? ==> IndexOf(e.value.value.shown, value, 0) == -1)
  }

  /** Every property of a clone hides every declared value that does not overlap the marker, and no two
      properties have one key. */
  lemma {:induction false} CloneCarriesNoSecret(entries: seq<Entry>, image: map<ObjNode, ObjNode>, values: set<string>, value: string)
    requires value in values && value != "" && !OverlapsMarker(value)
    ensures UniqueKeys(CloneOfEntries(entries, image, Redactor(values)))
    ensures forall e :: e in CloneOfEntries(entries, image, Redactor(values)) ==> Hides(e, value)
  {
    if entries != [] {
      var clean := Redactor(values);
      var before, last := entries[..|entries| - 1], entries[|entries| - 1];
      CloneCarriesNoSecret(before, image, values, value);
      var key, copy := clean(last.key), CloneOfEntry(last, image, clean);
      DefinedKeys(CloneOfEntries(before, image, clean), key, copy);
      NotRead(last.key, values, value);
      MarkerHides(value);
      if last.value.Some? {
        if last.value.value.Str? {
          NotRead(last.value.value.text, values, value);
        } else if last.value.value.Number? {
          NotRead(last.value.value.shown, values, value);
        }
      }
    }
  }

  lemma NotRead(text: string, values: set<string>, value: string)
    requires value in values && value != "" && !OverlapsMarker(value)
    ensures IndexOf(Redacted(text, values), value, 0) == -1
  {
    NoSurvivor(text, values, value);
  }

  lemma MarkerHides(value: string)
    requires value != "" && !OverlapsMarker(value)
    ensures IndexOf(MARKER, value, 0) == -1
  {
    MarkerCarriesNothing(value);
  }
}
