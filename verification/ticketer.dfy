/**
 * The ticket space: a directory of payload files named by tickets, a TTL
 * for expiring them, and the sequence counter that selects random or
 * sequential tickets. Wall-clock time, random bytes, directory reads and
 * the success of file creation come in as parameters; the directory's
 * contents are a Directory object that the operations update.
 */
module Ticketer {
  import opened Wrappers
  import opened Bytes
  import opened Sequencer
  import opened TicketId
  import opened Expiry
  import opened Paths
  import opened Selector

  /** The files under the ticket directory, by name. */
  class Directory {
    var files: Files

    constructor (files: Files)
      ensures this.files == files
    {
      this.files := files;
    }
  }

  /** The directory Start falls back to when the path is empty. */
  const DefaultPath: string := "/tmp"

  /** `x` with `s` written over it from offset `off`. */
  function Overwrite(x: seq<Byte>, off: nat, s: seq<Byte>): (r: seq<Byte>)
    requires off + |s| <= |x|
    ensures |r| == |x|
  {
    x[..off] + s + x[off + |s|..]
  }

  /**
   * Writing eight bytes, then four over their start, then the last ten,
   * leaves the four, the last four of the eight, and the ten.
   */
  lemma OverlappingWrites(x: seq<Byte>, time: seq<Byte>, number: seq<Byte>, random: seq<Byte>)
    requires |x| == TicketSize && |time| == 8 && |number| == 4 && |random| == 10
    ensures Overwrite(Overwrite(Overwrite(x, 0, time), 0, number), 8, random)
              == number + time[4..] + random
  {
    var a := Overwrite(x, 0, time);
    assert a[..8] == time;
    var b := Overwrite(a, 0, number);
    assert b[..8] == number + time[4..];
  }

  /** Copies `s` into `a` from offset `off`, as PutUint32, PutUint64 and rand.Read fill a slice. */
  method Put(a: array<Byte>, off: nat, s: seq<Byte>)
    requires off + |s| <= a.Length
    modifies a
    ensures a[..] == Overwrite(old(a[..]), off, s)
  {
    var i := 0;
    while i < |s|
      invariant 0 <= i <= |s|
      invariant forall j :: 0 <= j < a.Length ==>
                  a[j] == if off <= j < off + i then s[j - off] else old(a[j])
    {
      a[off + i] := s[i];
      i := i + 1;
    }
    assert forall j :: 0 <= j < a.Length ==> a[..][j] == Overwrite(old(a[..]), off, s)[j];
  }

  /** A rendered ticket has no '/', so it names a file directly under the ticket directory. */
  lemma RenderedNameIsBase(b: seq<Byte>)
    requires |b| == TicketSize
    ensures BaseName(Render(b)) == Render(b)
  {
    RenderShape(b);
    var s := Render(b);
    assert forall i :: 0 <= i < |s| ==> s[i] != '/';
    BaseNameOfName(s);
  }

  class Ticket {
    var path: string
    /** Nanoseconds; 0 means not yet set. */
    var ttl: int
    /** -1 in random mode, otherwise one less than the next sequence number to issue. */
    var sequence: int

    ghost predicate Valid()
      reads this
    {
      ValidCounter(sequence) && (ttl == 0 || ttl >= Hour)
    }

    /** NewTicket: random mode, TTL unset. */
    constructor (path: string)
      ensures Valid()
      ensures this.path == path && ttl == 0 && sequence == Disabled
    {
      this.path := path;
      ttl := 0;
      sequence := Disabled;
    }

    /** A Ticket written as a struct literal: every field is zero, so it starts in sequential mode. */
    constructor ZeroValue()
      ensures Valid()
      ensures path == "" && ttl == 0 && sequence == 0
    {
      path := "";
      ttl := 0;
      sequence := 0;
    }

    /** Switches sequential mode on; a counter already running is left alone. */
    method Queue() returns (t: Ticket)
      requires Valid()
      modifies this`sequence
      ensures Valid() && t == this
      ensures old(sequence) == Disabled ==> sequence == 0
      ensures old(sequence) != Disabled ==> sequence == old(sequence)
    {
      if sequence == Disabled {
        sequence := 0;
      }
      t := this;
    }

    /**
     * A new ticket from the Unix seconds `unix` and 18 random bytes. In
     * sequential mode the time is written into bytes 0-7, the incremented
     * counter over bytes 0-3, and ten random bytes into bytes 8-17.
     */
    method Generate(unix: int, random: seq<Byte>) returns (ticket: string)
      requires Valid() && |random| == TicketSize
      modifies this`sequence
      ensures Valid()
      ensures sequence == Advance(old(sequence))
      ensures ticket == Render(TicketBytes(old(sequence), unix, random))
    {
      var tkt := new Byte[TicketSize];
      ghost var bytes: seq<Byte>;
      if sequence > Disabled {
        ghost var blank := tkt[..];
        var time := BigEndian(ToUint64(unix), 8);
        Put(tkt, 0, time);
        sequence := sequence + 1;
        var number := BigEndian(ToUint32(sequence), 4);
        Put(tkt, 0, number);
        Put(tkt, 8, random[8..]);
        if sequence == Ceiling {
          sequence := 1;
        }
        bytes := SequentialLayout(old(sequence) + 1, unix, random[8..]);
        assert tkt[..] == bytes by {
          OverlappingWrites(blank, time, number, random[8..]);
          BigEndianSuffix(ToUint64(unix), 4, 4);
        }
      } else {
        Put(tkt, 0, random);
        bytes := random;
        assert tkt[..] == bytes;
      }
      assert bytes == TicketBytes(old(sequence), unix, random);
      ticket := Render(tkt[..]);
    }

    /** Stores `data` under the ticket, or under a newly generated one when none is given. */
    method Save(ticket: Option<string>, data: seq<Byte>, created: bool, unix: int, random: seq<Byte>, dir: Directory)
      returns (name: string, ok: bool)
      requires Valid() && |random| == TicketSize
      modifies this`sequence, dir
      ensures Valid()
      ensures ticket.Some? ==> name == ticket.value && sequence == old(sequence)
      ensures ticket.None? ==> name == Render(TicketBytes(old(sequence), unix, random))
      ensures ticket.None? ==> sequence == Advance(old(sequence))
      ensures ok == created
      ensures dir.files == if ok then old(dir.files)[BaseName(name) := data] else old(dir.files)
    {
      if ticket.None? {
        name := Generate(unix, random);
      } else {
        name := ticket.value;
      }
      ok := created;
      if ok {
        dir.files := dir.files[BaseName(name) := data];
      }
    }

    /** The payload stored under the ticket, if there is one. */
    method Load(ticket: string, dir: Directory) returns (ok: bool, data: seq<Byte>)
      ensures ok <==> BaseName(ticket) in dir.files
      ensures ok ==> data == dir.files[BaseName(ticket)]
      ensures !ok ==> data == []
    {
      var name := BaseName(ticket);
      ok := name in dir.files;
      data := if ok then dir.files[name] else [];
    }

    /** Deletes the ticket's file; false when there was none. */
    method Remove(ticket: string, dir: Directory) returns (ok: bool)
      modifies dir
      ensures ok <==> BaseName(ticket) in old(dir.files)
      ensures dir.files == old(dir.files) - {BaseName(ticket)}
    {
      var name := BaseName(ticket);
      ok := name in dir.files;
      dir.files := dir.files - {name};
    }

    /**
     * The path of the next ticket to process: None when the directory read
     * fails or is empty, else the head of one bounded read, or the entry at
     * the little-endian value of eight random bytes modulo the count.
     */
    method Next(random: bool, listing: Option<seq<DirEntry>>, randomBytes: seq<Byte>)
      returns (p: Option<string>)
      requires |randomBytes| == 8
      ensures p.None? <==> listing.None? || listing.value == []
      ensures p.Some? ==>
                var read := BoundedRead(listing.value);
                var k := SelectIndex(|read|, random, FromLittleEndian(randomBytes));
                k < |read| && read[k] == listing.value[k] &&
                p.value == JoinPath(path, read[k].name)
    {
      if listing.None? {
        return None;
      }
      var read := BoundedRead(listing.value);
      if |read| == 0 {
        return None;
      }
      var k: nat;
      if !random {
        k := 0;
      } else {
        var r := FromLittleEndian(randomBytes);
        k := r % |read|;
      }
      p := Some(JoinPath(path, read[k].name));
    }

    /**
     * Resolves the TTL, then removes every listed regular file whose
     * modification time plus the TTL is strictly before "now" truncated to
     * the second. Returns null when the directory cannot be read.
     */
    method Expire(age: Option<int>, listing: Option<seq<DirEntry>>, now: int, dir: Directory)
      returns (r: Ticket?)
      requires Valid()
      modifies this`ttl, dir
      ensures Valid()
      ensures ttl == ResolveTtl(old(ttl), age)
      ensures r == if listing.Some? then this else null
      ensures dir.files == Sweep(old(dir.files), listing, ttl, now)
    {
      if age.None? && ttl == 0 {
        ttl := DefaultTtl;
      }
      if age.Some? && age.value > 0 {
        ttl := age.value;
      }
      if ttl < Hour {
        ttl := Hour;
      }
      assert ttl == ResolveTtl(old(ttl), age);
      if listing.None? {
        return null;
      }
      var entries := listing.value;
      var cutoff := TruncateToSecond(now);
      ghost var before := dir.files;
      ghost var gone: set<string> := {};
      var i := 0;
      while i < |entries|
        invariant 0 <= i <= |entries|
        invariant gone == ExpiredNames(entries[..i], ttl, cutoff)
        invariant dir.files == before - gone
        modifies dir
      {
        var e := entries[i];
        ExpiredNamesSnoc(entries, i, ttl, cutoff);
        if e.regular {
          if e.modTime.Some? && e.modTime.value + ttl < cutoff {
            RemoveTwice(before, gone, {e.name});
            dir.files := dir.files - {e.name};
            gone := gone + {e.name};
          }
        }
        i := i + 1;
      }
      assert entries[..i] == entries;
      r := this;
    }

    /**
     * The expiration manager. In random mode it returns at once. Otherwise
     * it defaults an empty path to /tmp, sweeps once without override, and
     * sweeps again on each hourly tick in `ticks` until cancelled.
     */
    method Start(first: SweepInput, ticks: seq<SweepInput>, dir: Directory)
      requires Valid()
      modifies this`path, this`ttl, dir
      ensures Valid()
      ensures old(sequence) < 0 ==>
                path == old(path) && ttl == old(ttl) && dir.files == old(dir.files)
      ensures old(sequence) >= 0 ==>
                && path == (if old(path) == "" then DefaultPath else old(path))
                && ttl == ResolveTtl(old(ttl), None)
                && dir.files == SweepAll(old(dir.files), [first] + ticks, ttl)
    {
      if sequence < 0 {
        return;
      }
      if |path| == 0 {
        path := DefaultPath;
      }
      var _ := Expire(None, first.listing, first.now, dir);
      var done: seq<SweepInput> := [first];
      assert SweepAll(old(dir.files), done, ttl) == dir.files by {
        assert done[..0] == [];
      }
      var i := 0;
      while i < |ticks|
        invariant 0 <= i <= |ticks|
        invariant Valid() && ttl == ResolveTtl(old(ttl), None)
        invariant path == (if old(path) == "" then DefaultPath else old(path))
        invariant done == [first] + ticks[..i]
        invariant dir.files == SweepAll(old(dir.files), done, ttl)
      {
        ResolveStable(old(ttl), None);
        var _ := Expire(None, ticks[i].listing, ticks[i].now, dir);
        assert (done + [ticks[i]])[..|done|] == done;
        done := done + [ticks[i]];
        assert ticks[..i + 1] == ticks[..i] + [ticks[i]];
        i := i + 1;
      }
      assert ticks[..i] == ticks;
    }
  }
}
