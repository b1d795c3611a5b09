/** The age-based sweep of the uploads directory (`purge`) and what repeated
    sweeps, one per timer tick, leave behind. */
module Purge {
  import opened Store
  import Naming

  /** Files older than a day are removed. */
  const PURGE_AFTER: nat := 3600 * 24

  /** How long ago `mtime` was at `now`; a modification time in the future
      counts as no time at all. */
  function Age(now: int, mtime: int): nat {
    if now >= mtime then now - mtime else 0
  }

  predicate Expired(e: Entry, now: int) {
    Age(now, e.mtime) > PURGE_AFTER
  }

  /** The directory once every entry outside `pending` has been visited by a
      sweep at `now`: an expired visited entry is gone unless the system
      refused to remove it. */
  function SweptExcept(entries: Listing, now: int, refused: set<string>, pending: set<string>): Listing {
    map n | n in entries && (n in pending || !Expired(entries[n], now) || n in refused) :: entries[n]
  }

  /** The directory after a complete sweep at `now`. */
  function Swept(entries: Listing, now: int, refused: set<string>): Listing {
    SweptExcept(entries, now, refused, {})
  }

  /** Names a sweep removes. */
  function Removable(entries: Listing, now: int, refused: set<string>): set<string> {
    set n | n in entries && Expired(entries[n], now) && n !in refused
  }

  /** `purge`: visits every entry of the directory once, in whatever order
      the directory lists them, and removes the expired ones. A removal the
      system refuses is reported in `failed` and the sweep goes on; the
      removed names are reported in `deleted`. */
  method Sweep(dir: UploadDir, now: int, refused: set<string>)
    returns (deleted: set<string>, failed: set<string>)
    requires dir.Valid()
    modifies dir
    ensures dir.Valid()
    ensures dir.entries == Swept(old(dir.entries), now, refused)
    ensures deleted == Removable(old(dir.entries), now, refused)
    ensures failed == set n | n in old(dir.entries) && Expired(old(dir.entries)[n], now) && n in refused
    ensures forall n :: n in deleted + failed ==> Naming.IsEntryName(n)
  {
    ghost var start := dir.entries;
    var pending := dir.entries.Keys;
    deleted, failed := {}, {};
    while pending != {}
      invariant pending <= start.Keys
      invariant dir.Valid()
      invariant dir.entries == SweptExcept(start, now, refused, pending)
      invariant deleted == set n | n in start && n !in pending && Expired(start[n], now) && n !in refused
      invariant failed == set n | n in start && n !in pending && Expired(start[n], now) && n in refused
      decreases pending
    {
      var n :| n in pending;
      var e := dir.entries[n];
      if Age(now, e.mtime) > PURGE_AFTER {
        var removed := dir.Remove(n, n in refused);
        if removed {
          deleted := deleted + {n};
        } else {
          failed := failed + {n};
        }
      }
      pending := pending - {n};
    }
  }

  /** One tick of `purge_loop`: the clock reading of its sweep and the
      names whose removal the system refuses during that sweep. */
  datatype Tick = Tick(now: int, refused: set<string>)

  /** The directory after one sweep per tick, in order. */
  function SweptAt(entries: Listing, ticks: seq<Tick>): Listing
    decreases |ticks|
  {
    if ticks == [] then entries
    else SweptAt(Swept(entries, ticks[0].now, ticks[0].refused), ticks[1..])
  }

  /** A sweep changes no file it keeps and adds none; it removes exactly
      the removable files, and keeps every file at most a day old, including
      one whose modification time lies in the future. */
  lemma SweptIsRestriction(entries: Listing, now: int, refused: set<string>)
    ensures Swept(entries, now, refused).Keys <= entries.Keys
    ensures forall n :: n in Swept(entries, now, refused) ==> Swept(entries, now, refused)[n] == entries[n]
    ensures Swept(entries, now, refused).Keys !! Removable(entries, now, refused)
    ensures entries.Keys == Swept(entries, now, refused).Keys + Removable(entries, now, refused)
    ensures forall n :: n in entries && entries[n].mtime >= now - PURGE_AFTER ==> n in Swept(entries, now, refused)
  {
  }

  /** A second sweep at the same time removes nothing more. */
  lemma SweepIdempotent(entries: Listing, now: int, refused: set<string>)
    ensures Swept(Swept(entries, now, refused), now, refused) == Swept(entries, now, refused)
  {
    var once := Swept(entries, now, refused);
    assert forall n :: n in once ==> once[n] == entries[n];
  }

  /** A file survives a run of sweeps exactly when every tick at which it
      is expired refuses its removal, and it survives unchanged. */
  lemma {:induction false} SurvivesSweeps(entries: Listing, ticks: seq<Tick>, n: string)
    requires n in entries
    ensures n in SweptAt(entries, ticks)
        <==> forall k :: 0 <= k < |ticks| ==> (Expired(entries[n], ticks[k].now) ==> n in ticks[k].refused)
    ensures n in SweptAt(entries, ticks) ==> SweptAt(entries, ticks)[n] == entries[n]
    decreases |ticks|
  {
    if ticks != [] {
      var once := Swept(entries, ticks[0].now, ticks[0].refused);
      if n in once {
        assert once[n] == entries[n];
        SurvivesSweeps(once, ticks[1..], n);
        assert forall k :: 1 <= k < |ticks| ==> ticks[1..][k - 1] == ticks[k];
      } else {
        SweptAtRemoved(once, ticks[1..], n);
      }
    }
  }

  /** A removed file stays removed. */
  lemma {:induction false} SweptAtRemoved(entries: Listing, ticks: seq<Tick>, n: string)
    requires n !in entries
    ensures n !in SweptAt(entries, ticks)
    decreases |ticks|
  {
    if ticks != [] {
      SweptAtRemoved(Swept(entries, ticks[0].now, ticks[0].refused), ticks[1..], n);
    }
  }

  /** Age never decreases as time goes on. */
  lemma AgeMonotone(t1: int, t2: int, mtime: int)
    requires t1 <= t2
    ensures Age(t1, mtime) <= Age(t2, mtime)
  {
  }

  /** Ticks in time order. */
  predicate Chronological(ticks: seq<Tick>) {
    forall k, l :: 0 <= k < l < |ticks| ==> ticks[k].now <= ticks[l].now
  }

  /** With ticks in time order, a file that is not expired at the last tick
      was not expired at any tick, so it survives them all unchanged,
      whatever the refusals. */
  lemma YoungAtLastTickSurvives(entries: Listing, ticks: seq<Tick>, n: string)
    requires n in entries && ticks != [] && Chronological(ticks)
    requires !Expired(entries[n], ticks[|ticks| - 1].now)
    ensures n in SweptAt(entries, ticks) && SweptAt(entries, ticks)[n] == entries[n]
  {
    SurvivesSweeps(entries, ticks, n);
    var last := ticks[|ticks| - 1].now;
    forall k | 0 <= k < |ticks|
      ensures !Expired(entries[n], ticks[k].now)
    {
      if k < |ticks| - 1 {
        AgeMonotone(ticks[k].now, last, entries[n].mtime);
      }
    }
  }

  /** With ticks in time order and a file whose removal every tick either
      refuses or allows alike, survival is decided by the last tick alone:
      the file is kept exactly when it is not expired then, or its removal
      is refused. */
  lemma LastTickDecides(entries: Listing, ticks: seq<Tick>, n: string)
    requires n in entries && ticks != [] && Chronological(ticks)
    requires forall k :: 0 <= k < |ticks| ==> (n in ticks[k].refused <==> n in ticks[|ticks| - 1].refused)
    ensures n in SweptAt(entries, ticks)
        <==> n in ticks[|ticks| - 1].refused || !Expired(entries[n], ticks[|ticks| - 1].now)
  {
    SurvivesSweeps(entries, ticks, n);
    if !Expired(entries[n], ticks[|ticks| - 1].now) {
      YoungAtLastTickSurvives(entries, ticks, n);
    }
  }
}
