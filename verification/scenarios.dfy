/** Whole-object runs of the ticket space, each on a fresh Ticket and Directory. */
module Scenarios {
  import opened Wrappers
  import opened Bytes
  import opened TicketId
  import opened Ticketer

  /** After Queue, three tickets in a row carry sequence numbers 1, 2 and 3. */
  method SequencedRun(path: string, unix: int, random: seq<Byte>)
    returns (first: string, second: string, third: string)
    requires |random| == TicketSize
    ensures SequenceOf(first) == Some(1)
    ensures SequenceOf(second) == Some(2)
    ensures SequenceOf(third) == Some(3)
  {
    var t := new Ticket(path);
    var _ := t.Queue();
    first := t.Generate(unix, random);
    assert SequenceOf(first) == Some(1) by {
      SequenceOfGenerated(0, unix, random);
    }
    second := t.Generate(unix, random);
    assert SequenceOf(second) == Some(2) by {
      SequenceOfGenerated(1, unix, random);
    }
    third := t.Generate(unix, random);
    assert SequenceOf(third) == Some(3) by {
      SequenceOfGenerated(2, unix, random);
    }
  }

  /** Queue twice leaves the counter where Queue once does. */
  method QueueTwice(path: string) returns (once: int, twice: int)
    ensures once == twice == 0
  {
    var t := new Ticket(path);
    var _ := t.Queue();
    once := t.sequence;
    var _ := t.Queue();
    twice := t.sequence;
  }

  /**
   * Saving a payload under a generated ticket, loading it back and removing
   * it: the load returns the payload and a second load finds nothing.
   */
  method StoreRoundTrip(path: string, payload: seq<Byte>, unix: int, random: seq<Byte>)
    returns (saved: bool, loaded: seq<Byte>, foundAfterRemove: bool)
    requires |random| == TicketSize
    ensures saved && loaded == payload && !foundAfterRemove
  {
    var t := new Ticket(path);
    var dir := new Directory(map[]);
    var name;
    name, saved := t.Save(None, payload, true, unix, random, dir);
    var found;
    found, loaded := t.Load(name, dir);
    var removed := t.Remove(name, dir);
    var rest;
    foundAfterRemove, rest := t.Load(name, dir);
  }
}
