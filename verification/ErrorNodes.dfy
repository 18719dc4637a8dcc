/** Error objects with a `cause` chain, as the helpers that copy or scrub them see them. */
module ErrorNodes {

  import opened Options

  /** What an assignment to a property of an error does. */
  datatype Write =
    | Accepts   // the value is stored
    | Refuses   // `Reflect.set` reports failure
    | Ignores   // a setter reports success and keeps the old value
    | Throws    // a trap or setter throws

  /** How an error object answers its readers and writers. */
  datatype Traits = Traits(unreadable: bool, name: Write, message: Write, stack: Write, cause: Write, response: Write, options: Write)

  /** The `cause` slot: no such property, one of the two empty values, another error, or anything else
      with its string form (`None` when converting it throws). */
  datatype Cause = Absent | Undefined | Null | Link(node: ErrorNode) | Other(text: Option<string>)

  /** A consumer-added own property. */
  datatype Extra = Extra(key: string, payload: string, deletable: bool)

  /** Something that can be read: a text, or a number in its decimal form. */
  datatype Shown = Written(text: string) | Numeral(text: string)

  /** What a `NotificationException` has besides: its stable code and its status, as texts, and what can be
      read in its response and in its options. */
  datatype Contract = Contract(code: string, status: string, response: seq<Shown>, options: seq<Shown>)

  /** The text an error exposes. */
  datatype Texts = Texts(name: string, message: string, stack: Option<string>)

  /** Everything there is to see of an error. */
  datatype View = Seen(texts: Texts, cause: Cause, extras: seq<Extra>, contract: Option<Contract>, traits: Traits)

  const PLAIN := Traits(false, Accepts, Accepts, Accepts, Accepts, Accepts, Accepts)

  class ErrorNode {
    const traits: Traits
    var name: string
    var message: string
    var stack: Option<string>
    var cause: Cause
    var extras: seq<Extra>
    var contract: Option<Contract>

    ghost function Look(): View
      reads this
    {
      Seen(Texts(name, message, stack), cause, extras, contract, traits)
    }

    constructor (name: string, message: string, stack: Option<string>)
      ensures Look() == Seen(Texts(name, message, stack), Absent, [], None, PLAIN)
    {
      this.name, this.message, this.stack := name, message, stack;
      cause, extras, contract, traits := Absent, [], None, PLAIN;
    }
  }

  /** A finite heap of errors at one moment. */
  type Heap = map<ErrorNode, View>

  /** `h` is what there is to see of its errors now. */
  ghost predicate Shows(h: Heap)
    reads h.Keys
  {
    forall n :: n in h ==> n.Look() == h[n]
  }

  /** No link leaves the heap. */
  ghost predicate Closed(h: Heap) {
    forall n {:trigger h[n].cause.node} :: n in h && h[n].cause.Link? ==> h[n].cause.node in h
  }
}
