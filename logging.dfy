/**
 * The checker's logger. It collects (kind, message) pairs; the first message also prints the
 * document title, and each message prints one indented line under it.
 */
module Logging {

  datatype Kind = Error | Warning

  datatype Entry = Entry(kind: Kind, message: string)

  function Label(kind: Kind): string {
    match kind
    case Error => "error"
    case Warning => "warning"
  }

  /** The line printed for one message. */
  function Line(e: Entry): string {
    "   " + Label(e.kind) + ": " + e.message
  }

  /** The lines printed for the messages, one each, in order. */
  function Lines(entries: seq<Entry>): seq<string> {
    seq(|entries|, i requires 0 <= i < |entries| => Line(entries[i]))
  }

  /** Everything printed after `entries` were logged: nothing, or the title then one line each. */
  function Printed(title: string, entries: seq<Entry>): seq<string> {
    if entries == [] then [] else ["* " + title] + Lines(entries)
  }

  /** The title is printed once, ahead of the messages, which follow in the order logged. */
  lemma PrintedShape(title: string, entries: seq<Entry>)
    requires entries != []
    ensures |Printed(title, entries)| == |entries| + 1
    ensures Printed(title, entries)[0] == "* " + title
    ensures forall i | 0 <= i < |entries| :: Printed(title, entries)[i + 1] == Line(entries[i])
  {
  }

  class Logger {
    const title: string
    var isFresh: bool
    var entries: seq<Entry>
    var output: seq<string>

    /** `isFresh` holds until the first message, and the output is what the entries print. */
    ghost predicate Valid()
      reads this
    {
      isFresh == (entries == []) && output == Printed(title, entries)
    }

    constructor(title: string)
      ensures Valid() && this.title == title && entries == []
    {
      this.title := title;
      isFresh := true;
      entries := [];
      output := [];
    }

    /** `log`: prints the title before the first message, then the message line. */
    method Log(kind: Kind, message: string)
      requires Valid()
      modifies this
      ensures Valid()
      ensures entries == old(entries) + [Entry(kind, message)]
      ensures output == old(output) + (if old(isFresh) then ["* " + title] else []) + [Line(Entry(kind, message))]
    {
      if isFresh {
        isFresh := false;
        output := output + ["* " + title];
      }
      output := output + [Line(Entry(kind, message))];
      entries := entries + [Entry(kind, message)];
      assert Lines(entries) == Lines(old(entries)) + [Line(Entry(kind, message))];
    }
  }
}
