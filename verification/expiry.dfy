/**
 * Expire's pure parts: resolving the TTL, the cut-off instant, which
 * listed entries one sweep removes, and the store after a series of sweeps.
 * Durations and instants are integer nanoseconds (Unix time for instants).
 */
module Expiry {
  import opened Wrappers
  import opened Bytes

  const Second: int := 1_000_000_000
  const Hour: int := 3600 * Second
  /** The TTL a sweep without override sets when none was set before. */
  const DefaultTtl: int := 12 * Hour

  /** An entry of a directory read: its name, whether it is a regular file, and its modification time (None when the lookup failed). */
  datatype DirEntry = DirEntry(name: string, regular: bool, modTime: Option<int>)

  /** The inputs of one sweep: the directory read (None on a read error) and the wall clock. */
  datatype SweepInput = SweepInput(listing: Option<seq<DirEntry>>, now: int)

  /** The ticket directory's files by name. */
  type Files = map<string, seq<Byte>>

  /** The TTL Expire settles on, from the current TTL and the optional override. */
  function ResolveTtl(ttl: int, age: Option<int>): (r: int)
    ensures r >= Hour
    ensures age.None? && ttl == 0 ==> r == DefaultTtl
    ensures age.Some? && age.value > 0 ==> r == (if age.value < Hour then Hour else age.value)
    ensures (age.None? && ttl != 0) || (age.Some? && age.value <= 0) ==>
              r == (if ttl < Hour then Hour else ttl)
  {
    var defaulted := if age.None? && ttl == 0 then DefaultTtl else ttl;
    var overridden := if age.Some? && age.value > 0 then age.value else defaulted;
    if overridden < Hour then Hour else overridden
  }

  /** Once resolved, a sweep without override keeps the TTL. */
  lemma ResolveStable(ttl: int, age: Option<int>)
    ensures ResolveTtl(ResolveTtl(ttl, age), None) == ResolveTtl(ttl, age)
  {
  }

  /** time.Time.Truncate(time.Second) on a Unix instant: round down to a whole second. */
  function TruncateToSecond(t: int): (r: int)
    ensures r % Second == 0
    ensures r <= t < r + Second
  {
    t - t % Second
  }

  /** Whether a sweep with this TTL and cut-off removes the entry. */
  function Expired(e: DirEntry, ttl: int, cutoff: int): (r: bool)
    ensures r ==> e.regular && e.modTime.Some?
  {
    e.regular && e.modTime.Some? && e.modTime.value + ttl < cutoff
  }

  /** The names a sweep over `entries` removes. */
  function ExpiredNames(entries: seq<DirEntry>, ttl: int, cutoff: int): (r: set<string>)
    ensures forall n :: n in r ==> exists e :: e in entries && e.name == n
    decreases |entries|
  {
    if entries == [] then {}
    else
      var last := entries[|entries| - 1];
      ExpiredNames(entries[..|entries| - 1], ttl, cutoff)
        + (if Expired(last, ttl, cutoff) then {last.name} else {})
  }

  /** Extending the listing by one entry adds that entry's name when it is expired. */
  lemma ExpiredNamesSnoc(entries: seq<DirEntry>, i: nat, ttl: int, cutoff: int)
    requires i < |entries|
    ensures ExpiredNames(entries[..i + 1], ttl, cutoff) ==
              ExpiredNames(entries[..i], ttl, cutoff)
                + (if Expired(entries[i], ttl, cutoff) then {entries[i].name} else {})
  {
    assert entries[..i + 1][..i] == entries[..i];
  }

  /** Removing names one set after another removes their union. */
  lemma RemoveTwice(files: Files, a: set<string>, b: set<string>)
    ensures files - a - b == files - (a + b)
  {
  }

  /** A name is removed exactly when some listed entry of that name is expired. */
  lemma {:induction false} ExpiredNamesExactly(entries: seq<DirEntry>, ttl: int, cutoff: int, n: string)
    ensures n in ExpiredNames(entries, ttl, cutoff) <==>
              exists k :: 0 <= k < |entries| && entries[k].name == n && Expired(entries[k], ttl, cutoff)
    decreases |entries|
  {
    if entries != [] {
      var init := entries[..|entries| - 1];
      ExpiredNamesExactly(init, ttl, cutoff, n);
      if n in ExpiredNames(init, ttl, cutoff) {
        var k :| 0 <= k < |init| && init[k].name == n && Expired(init[k], ttl, cutoff);
        assert entries[k] == init[k];
      }
      if exists k :: 0 <= k < |entries| && entries[k].name == n && Expired(entries[k], ttl, cutoff) {
        var k :| 0 <= k < |entries| && entries[k].name == n && Expired(entries[k], ttl, cutoff);
        if k < |init| {
          assert init[k] == entries[k];
        }
      }
    }
  }

  /** A longer TTL removes no more entries. */
  lemma {:induction false} LongerTtlRemovesLess(entries: seq<DirEntry>, shorter: int, longer: int, cutoff: int)
    requires shorter <= longer
    ensures ExpiredNames(entries, longer, cutoff) <= ExpiredNames(entries, shorter, cutoff)
    decreases |entries|
  {
    if entries != [] {
      LongerTtlRemovesLess(entries[..|entries| - 1], shorter, longer, cutoff);
    }
  }

  /** An entry modified within the hour before the cut-off survives any resolved TTL. */
  lemma RecentEntrySurvives(e: DirEntry, ttl: int, age: Option<int>, cutoff: int)
    requires e.modTime.Some? && cutoff <= e.modTime.value + Hour
    ensures !Expired(e, ResolveTtl(ttl, age), cutoff)
  {
  }

  /** The files after one sweep: unchanged on a read error, otherwise without the expired names. */
  function Sweep(files: Files, listing: Option<seq<DirEntry>>, ttl: int, now: int): (r: Files)
    ensures r.Keys <= files.Keys
    ensures forall n :: n in r ==> r[n] == files[n]
    ensures listing.None? ==> r == files
  {
    match listing
    case None => files
    case Some(entries) => files - ExpiredNames(entries, ttl, TruncateToSecond(now))
  }

  /**
   * One sweep removes exactly the stored files that some listed regular
   * entry of the same name, whose modification time plus the TTL lies
   * strictly before "now" truncated to the second, stands for.
   */
  lemma SweepExactly(files: Files, listing: Option<seq<DirEntry>>, ttl: int, now: int, n: string)
    requires n in files
    ensures n !in Sweep(files, listing, ttl, now) <==>
              listing.Some? &&
              exists k :: 0 <= k < |listing.value| && listing.value[k].name == n &&
                          listing.value[k].regular && listing.value[k].modTime.Some? &&
                          listing.value[k].modTime.value + ttl < TruncateToSecond(now)
  {
    if listing.Some? {
      ExpiredNamesExactly(listing.value, ttl, TruncateToSecond(now), n);
    }
  }

  /** The files after a series of sweeps with one TTL, in order. */
  function SweepAll(files: Files, inputs: seq<SweepInput>, ttl: int): (r: Files)
    ensures r.Keys <= files.Keys
    ensures forall n :: n in r ==> r[n] == files[n]
    decreases |inputs|
  {
    if inputs == [] then files
    else
      var last := inputs[|inputs| - 1];
      Sweep(SweepAll(files, inputs[..|inputs| - 1], ttl), last.listing, ttl, last.now)
  }
}
