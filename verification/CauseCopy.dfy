/** `toLogSafeCause`: a bounded copy of a cause chain, safe to hand to a log serializer. */
module CauseCopy {
  import opened Options
  import opened ErrorNodes

  const MAX_CAUSE_DEPTH := 5
  const UNREADABLE_CAUSE_MESSAGE := "Cause unavailable: inspecting it threw"

  // ---------- Specification ----------

  /** A value that is not an error: its string form, or the fixed message when converting it throws. */
  function CopiedOther(text: Option<string>): Cause {
    Other(Some(if text.Some? then text.value else UNREADABLE_CAUSE_MESSAGE))
  }

  /** What a copy shows of the error behind it. */
  function CopiedTexts(v: View): Texts {
    if v.traits.unreadable then Texts("Error", UNREADABLE_CAUSE_MESSAGE, None) else v.texts
  }

  /** Whether the copy of an error at this depth has a cause of its own. */
  predicate GoesOn(v: View, depth: nat) {
    !v.traits.unreadable && depth < MAX_CAUSE_DEPTH && v.cause != Absent
  }

  /** `safe` is a copy of `cause`, made of plain errors in `copies`, down to the depth bound. */
  ghost predicate CopyOf(h: Heap, copies: Heap, cause: Cause, safe: Cause, depth: nat)
    decreases MAX_CAUSE_DEPTH - depth
  {
    match cause
    case Link(n) =>
      && n in h && safe.Link? && safe.node in copies
      && var c := copies[safe.node];
      && c.extras == [] && c.contract == None && c.traits == PLAIN
      && c.texts == CopiedTexts(h[n])
      && (if GoesOn(h[n], depth) then CopyOf(h, copies, h[n].cause, c.cause, depth + 1) else c.cause == Absent)
    case Other(text) => safe == CopiedOther(text)
    case _ => safe == cause
  }

  // ---------- The algorithm ----------

  /** What stands for an error that cannot be inspected. */
  method CopyUnreadable(node: ErrorNode, depth: nat, ghost h: Heap) returns (safe: Cause, ghost copies: Heap)
    requires node in h && h[node].traits.unreadable
    ensures fresh(copies.Keys) && |copies| == 1 && Shows(copies) && CopyOf(h, copies, Link(node), safe, depth)
  {
    var minimal := new ErrorNode("Error", UNREADABLE_CAUSE_MESSAGE, None);
    safe, copies := Link(minimal), map[minimal := minimal.Look()];
  }

  /** A fresh error with the texts of `node` and the copy of its cause. */
  method CopyReadable(node: ErrorNode, nested: Cause, depth: nat, ghost h: Heap, ghost below: Heap)
    returns (safe: Cause, ghost copies: Heap)
    requires node in h && Shows(h) && !node.traits.unreadable && Shows(below)
    requires if GoesOn(h[node], depth) then CopyOf(h, below, h[node].cause, nested, depth + 1) else nested == Absent
    ensures fresh(copies.Keys - below.Keys) && |copies| <= |below| + 1 && Shows(copies)
    ensures CopyOf(h, copies, Link(node), safe, depth)
  {
    var copy := new ErrorNode(node.name, node.message, node.stack);
    copy.cause := nested;
    safe, copies := Link(copy), below[copy := copy.Look()];
    if GoesOn(h[node], depth) {
      CopyGrows(h, below, copies, h[node].cause, nested, depth + 1);
    }
  }

  method ToLogSafeCause(cause: Cause, depth: nat, ghost h: Heap) returns (safe: Cause, ghost copies: Heap)
    requires Closed(h) && Shows(h) && (cause.Link? ==> cause.node in h) && depth <= MAX_CAUSE_DEPTH
    ensures fresh(copies.Keys) && |copies| <= MAX_CAUSE_DEPTH + 1 - depth && Shows(copies)
    ensures CopyOf(h, copies, cause, safe, depth)
    decreases MAX_CAUSE_DEPTH - depth
  {
    copies := map[];
    match cause {
      case Other(text) =>
        safe := CopiedOther(text);
      case Link(node) =>
        if node.traits.unreadable {
          safe, copies := CopyUnreadable(node, depth, h);
          return;
        }
        var nested := Absent;
        if depth < MAX_CAUSE_DEPTH && node.cause != Absent {
          nested, copies := ToLogSafeCause(node.cause, depth + 1, h);
        }
        safe, copies := CopyReadable(node, nested, depth, h, copies);
      case _ =>
        safe := cause;
    }
  }

  lemma {:induction false} CopyGrows(h: Heap, copies: Heap, more: Heap, cause: Cause, safe: Cause, depth: nat)
    requires CopyOf(h, copies, cause, safe, depth)
    requires forall c :: c in copies ==> c in more && more[c] == copies[c]
    ensures CopyOf(h, more, cause, safe, depth)
    decreases MAX_CAUSE_DEPTH - depth
  {
    if cause.Link? && GoesOn(h[cause.node], depth) {
      CopyGrows(h, copies, more, h[cause.node].cause, copies[safe.node].cause, depth + 1);
    }
  }

  // ---------- What a reader of the copy sees ----------

  /** Link by link: a copy is a plain error that takes every write and shows name, message and stack of the
      original, each in its place, or fixed texts where the original cannot be inspected. Behind it comes the copy
      of the cause down to the sixth link; what is no error is there in its string form, or withheld. */
  lemma CopyShows(h: Heap, copies: Heap, n: ErrorNode, safe: Cause, depth: nat)
    requires CopyOf(h, copies, Link(n), safe, depth) && depth <= 5
    ensures n in h && safe.Link? && safe.node in copies
    ensures var v, c := h[n], copies[safe.node];
      && c.extras == [] && c.contract == None
      && !c.traits.unreadable && c.traits.name == c.traits.message == c.traits.stack == c.traits.cause == Accepts
      && (v.traits.unreadable ==> c.texts == Texts("Error", "Cause unavailable: inspecting it threw", None) && c.cause == Absent)
      && (!v.traits.unreadable ==>
           && c.texts.name == v.texts.name && c.texts.message == v.texts.message && c.texts.stack == v.texts.stack
           && (depth == 5 ==> c.cause == Absent)
           && (depth < 5 ==> match v.cause
                case Link(m) => CopyOf(h, copies, Link(m), c.cause, depth + 1)
                case Other(Some(text)) => c.cause == Other(Some(text))
                case Other(None) => c.cause == Other(Some("Cause unavailable: inspecting it threw"))
                case empty => c.cause == empty))
  {
  }

  /** The texts along a chain of causes, as far as `k` links. */
  ghost function Reading(h: Heap, cause: Cause, k: nat): seq<Texts>
    decreases k
  {
    if k == 0 || !cause.Link? || cause.node !in h then []
    else [h[cause.node].texts] + Reading(h, h[cause.node].cause, k - 1)
  }

  /** The texts along the original, as far as `k` links: an error that cannot be inspected shows the
      fixed message and ends the reading. */
  ghost function ReadingOfOriginal(h: Heap, cause: Cause, k: nat): seq<Texts>
    decreases k
  {
    if k == 0 || !cause.Link? || cause.node !in h then []
    else if h[cause.node].traits.unreadable then [CopiedTexts(h[cause.node])]
    else [h[cause.node].texts] + ReadingOfOriginal(h, h[cause.node].cause, k - 1)
  }

  /** Reading the copy as far as one likes gives the first six texts of the original, and no more. */
  lemma {:induction false} CopyReadsLikeOriginal(h: Heap, copies: Heap, cause: Cause, safe: Cause, depth: nat, k: nat)
    requires CopyOf(h, copies, cause, safe, depth) && depth <= MAX_CAUSE_DEPTH
    ensures Reading(copies, safe, k)
      == ReadingOfOriginal(h, cause, if k < MAX_CAUSE_DEPTH + 1 - depth then k else MAX_CAUSE_DEPTH + 1 - depth)
    decreases MAX_CAUSE_DEPTH - depth
  {
    if cause.Link? && k > 0 && GoesOn(h[cause.node], depth) {
      CopyReadsLikeOriginal(h, copies, h[cause.node].cause, copies[safe.node].cause, depth + 1, k - 1);
    }
  }
}
