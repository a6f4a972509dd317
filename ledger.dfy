/**
 * The title-key ledger shared by hkdiscuss.py and hknet.py: keys loaded
 * from the feed files of earlier runs, and the listing walk that skips an
 * item whose key is already known, adds the key of every counted entry and
 * writes the feed only when something new was counted.
 */
module Ledger {
  import opened Text
  import opened Feed

  // ---------------------------------------------------------------------
  // Loading: `get_existing_entries`

  /**
   * One candidate path: it does not exist, reading or parsing it raises,
   * or it parsed and lists the text of each entry's `<title>` (None when
   * the entry has no title element).
   */
  datatype FeedFile = Absent | Unreadable | Parsed(titles: seq<Option<string>>)

  /** The keys of the titled entries of `titles`. */
  function TitleKeys(u: Unicode, titles: seq<Option<string>>): set<string>
  {
    if titles == [] then {}
    else
      var last := titles[|titles| - 1];
      TitleKeys(u, titles[..|titles| - 1]) + (if Truthy(last) then {TitleKey(u, last.value)} else {})
  }

  /** What one path contributes: nothing unless it parsed. */
  function FileKeys(u: Unicode, f: FeedFile): set<string>
  {
    if f.Parsed? then TitleKeys(u, f.titles) else {}
  }

  /** A titled entry's key is among the file's keys. */
  lemma {:induction false} TitleKeysHas(u: Unicode, titles: seq<Option<string>>, i: int)
    requires 0 <= i < |titles| && Truthy(titles[i])
    ensures TitleKey(u, titles[i].value) in TitleKeys(u, titles)
  {
    var init := titles[..|titles| - 1];
    if i < |init| {
      assert init[i] == titles[i];
      TitleKeysHas(u, init, i);
    }
  }

  /** Every key of the file comes from a titled entry. */
  lemma {:induction false} TitleKeysFrom(u: Unicode, titles: seq<Option<string>>, k: string)
    requires k in TitleKeys(u, titles)
    ensures exists i :: 0 <= i < |titles| && Truthy(titles[i]) && TitleKey(u, titles[i].value) == k
  {
    var n := |titles| - 1;
    var init := titles[..n];
    if k in TitleKeys(u, init) {
      TitleKeysFrom(u, init, k);
      var i :| 0 <= i < |init| && Truthy(init[i]) && TitleKey(u, init[i].value) == k;
      assert titles[i] == init[i];
    } else {
      assert Truthy(titles[n]) && TitleKey(u, titles[n].value) == k;
    }
  }

  lemma {:induction false} TitleKeysMembership(u: Unicode, titles: seq<Option<string>>, k: string)
    ensures k in TitleKeys(u, titles) <==>
      exists i :: 0 <= i < |titles| && Truthy(titles[i]) && TitleKey(u, titles[i].value) == k
  {
    if k in TitleKeys(u, titles) {
      TitleKeysFrom(u, titles, k);
    }
    if exists i :: 0 <= i < |titles| && Truthy(titles[i]) && TitleKey(u, titles[i].value) == k {
      var i :| 0 <= i < |titles| && Truthy(titles[i]) && TitleKey(u, titles[i].value) == k;
      TitleKeysHas(u, titles, i);
    }
  }

  /**
   * Reads the deployed copy, then the local copy; each titled entry's
   * `strip().lower()` goes into the set. A path that is absent or cannot
   * be read adds nothing and the other is still read.
   */
  method GetExistingEntries(u: Unicode, deployed: FeedFile, local: FeedFile) returns (keys: set<string>)
    ensures keys == FileKeys(u, deployed) + FileKeys(u, local)
  {
    keys := {};
    var paths := [deployed, local];
    for p := 0 to |paths|
      invariant keys == (if p >= 1 then FileKeys(u, deployed) else {}) + (if p >= 2 then FileKeys(u, local) else {})
    {
      var before := keys;
      if paths[p].Parsed? {
        var titles := paths[p].titles;
        for i := 0 to |titles|
          invariant keys == before + TitleKeys(u, titles[..i])
        {
          assert titles[..i + 1][..i] == titles[..i];
          if Truthy(titles[i]) {
            keys := keys + {TitleKey(u, titles[i].value)};
          }
        }
        assert titles[..|titles|] == titles;
      }
    }
  }

  /** The file parsed and one of its titled entries has the key `k`. */
  predicate HasKey(u: Unicode, f: FeedFile, k: string)
  {
    f.Parsed? && exists i :: 0 <= i < |f.titles| && Truthy(f.titles[i]) && TitleKey(u, f.titles[i].value) == k
  }

  /** A key is loaded exactly when some titled entry of a readable path has it. */
  lemma LoadedKeysMembership(u: Unicode, deployed: FeedFile, local: FeedFile, k: string)
    ensures k in FileKeys(u, deployed) + FileKeys(u, local) <==> HasKey(u, deployed, k) || HasKey(u, local, k)
  {
    if deployed.Parsed? {
      TitleKeysMembership(u, deployed.titles, k);
    }
    if local.Parsed? {
      TitleKeysMembership(u, local.titles, k);
    }
  }

  // ---------------------------------------------------------------------
  // The dedup-filtered listing walk of `fetch_feed`

  /**
   * What the rest of the loop body does with an item whose key is not yet
   * in the ledger: skip it, raise, or add an entry to the feed, counting
   * it only when the required fields are all present.
   */
  datatype Outcome = Drop | Abort(failure: Failure) | Emit(entry: Entry, counted: bool)

  /** A listing item: skipped before it has a key, or keyed by its title. */
  datatype Candidate = Unkeyed | Keyed(key: string, outcome: Outcome)

  /** An entry added to the feed generator, with the key of its item. */
  datatype Added = Added(entry: Entry, key: string, counted: bool)

  /** The loop state: the feed's entries, `existing_titles` and `new_entries`. */
  datatype Run = Run(added: seq<Added>, ledger: set<string>, newEntries: nat)

  datatype Result = ListingFailed | Crashed(failure: Failure) | Finished(run: Run)

  function Start(ledger: set<string>): Run
  {
    Run([], ledger, 0)
  }

  /** One iteration of the loop. */
  function Step(r: Run, c: Candidate): Result
  {
    match c
    case Unkeyed => Finished(r)
    case Keyed(k, o) =>
      if k in r.ledger then Finished(r)
      else match o
        case Drop => Finished(r)
        case Abort(f) => Crashed(f)
        case Emit(e, counted) =>
          if counted then Finished(Run(r.added + [Added(e, k, true)], r.ledger + {k}, r.newEntries + 1))
          else Finished(Run(r.added + [Added(e, k, false)], r.ledger, r.newEntries))
  }

  /**
   * The end of the loop body for an item whose key is new: a skip or an
   * exception, or the entry added and, when complete, counted and its key
   * put into `existing_titles`.
   */
  method AddOutcome(r: Run, k: string, o: Outcome) returns (res: Result)
    requires k !in r.ledger
    ensures res == Step(r, Keyed(k, o))
  {
    match o {
      case Drop =>
        return Finished(r);
      case Abort(f) =>
        return Crashed(f);
      case Emit(entry, complete) =>
        var added := r.added + [Added(entry, k, complete)];
        if !complete {
          return Finished(Run(added, r.ledger, r.newEntries));
        }
        return Finished(Run(added, r.ledger + {k}, r.newEntries + 1));
    }
  }

  /** An item leaves the state as it was exactly when it is unkeyed, already known, or dropped. */
  lemma StepKeeps(r: Run, c: Candidate)
    ensures Step(r, c) == Finished(r) <==> c.Unkeyed? || c.key in r.ledger || c.outcome.Drop?
  {
    if c.Keyed? && c.key !in r.ledger && c.outcome.Emit? {
      assert |Step(r, c).run.added| == |r.added| + 1;
    }
  }

  /** The loop over the whole listing, stopping at the first exception. */
  function Walk(cs: seq<Candidate>, r: Run): (res: Result)
    ensures !res.ListingFailed?
  {
    if cs == [] then Finished(r)
    else match Walk(cs[..|cs| - 1], r)
      case Finished(r') => Step(r', cs[|cs| - 1])
      case Crashed(f) => Crashed(f)
  }

  /** `if new_entries > 0: fg.atom_file(atom_file)`. */
  predicate Written(res: Result)
  {
    res.Finished? && res.run.newEntries > 0
  }

  lemma WalkSnoc(cs: seq<Candidate>, c: Candidate, r: Run)
    ensures Walk(cs + [c], r) == (match Walk(cs, r) case Finished(r') => Step(r', c) case Crashed(f) => Crashed(f) case ListingFailed => ListingFailed)
  {
    assert (cs + [c])[..|cs|] == cs;
  }

  /** An exception ends the loop: nothing after it is looked at. */
  lemma {:induction false} CrashSticks(cs: seq<Candidate>, n: nat, r: Run)
    requires n <= |cs| && Walk(cs[..n], r).Crashed?
    ensures Walk(cs, r) == Walk(cs[..n], r)
    decreases |cs|
  {
    if n < |cs| {
      assert cs[..|cs| - 1][..n] == cs[..n];
      CrashSticks(cs[..|cs| - 1], n, r);
    } else {
      assert cs[..n] == cs;
    }
  }

  /** One more item extends the walk, or ends it for good with an exception. */
  lemma WalkExtends(cs: seq<Candidate>, i: int, r0: Run, state: Run, next: Result)
    requires 0 <= i < |cs|
    requires Walk(cs[..i], r0) == Finished(state)
    requires next == Step(state, cs[i])
    ensures next.Crashed? ==> Walk(cs, r0) == next
    ensures next.Finished? ==> Walk(cs[..i + 1], r0) == next
  {
    assert cs[..i + 1] == cs[..i] + [cs[i]];
    WalkSnoc(cs[..i], cs[i], r0);
    if next.Crashed? {
      CrashSticks(cs, i + 1, r0);
    }
  }

  // ---------------------------------------------------------------------
  // What the walk keeps

  function CountedKeys(added: seq<Added>): set<string>
  {
    set i | 0 <= i < |added| && added[i].counted :: added[i].key
  }

  function Counted(added: seq<Added>): nat
  {
    if added == [] then 0
    else Counted(added[..|added| - 1]) + (if added[|added| - 1].counted then 1 else 0)
  }

  /**
   * The invariant of the loop, relative to the ledger `l0` loaded at the
   * start: no added entry's key was loaded; an entry that was counted is
   * followed by no other entry with its key; the ledger is `l0` plus the
   * counted keys, and `new_entries` is how many were counted.
   */
  predicate Consistent(l0: set<string>, r: Run)
  {
    && (forall i :: 0 <= i < |r.added| ==> r.added[i].key !in l0)
    && (forall i, j :: 0 <= i < j < |r.added| && r.added[i].counted ==> r.added[i].key != r.added[j].key)
    && r.ledger == l0 + CountedKeys(r.added)
    && r.newEntries == Counted(r.added)
  }

  lemma CountedKeysSnoc(added: seq<Added>, x: Added)
    ensures CountedKeys(added + [x]) == CountedKeys(added) + (if x.counted then {x.key} else {})
  {
    var all := added + [x];
    forall key | key in CountedKeys(all)
      ensures key in CountedKeys(added) + (if x.counted then {x.key} else {})
    {
      var i :| 0 <= i < |all| && all[i].counted && all[i].key == key;
      if i < |added| {
        assert all[i] == added[i];
      }
    }
    forall key | key in CountedKeys(added)
      ensures key in CountedKeys(all)
    {
      var i :| 0 <= i < |added| && added[i].counted && added[i].key == key;
      assert all[i] == added[i];
    }
    if x.counted {
      assert all[|added|] == x;
    }
  }

  lemma StepConsistent(l0: set<string>, r: Run, c: Candidate)
    requires Consistent(l0, r)
    ensures Step(r, c).Finished? ==> Consistent(l0, Step(r, c).run)
    ensures Step(r, c).Finished? ==> r.ledger <= Step(r, c).run.ledger && |Step(r, c).run.added| <= |r.added| + 1
  {
    if c.Keyed? && c.key !in r.ledger && c.outcome.Emit? {
      SnocConsistent(l0, r, Added(c.outcome.entry, c.key, c.outcome.counted));
    }
  }

  /** Adding an entry whose key is not in the ledger keeps the invariant. */
  lemma SnocConsistent(l0: set<string>, r: Run, x: Added)
    requires Consistent(l0, r) && x.key !in r.ledger
    ensures Consistent(l0, Run(r.added + [x], r.ledger + (if x.counted then {x.key} else {}),
                                r.newEntries + (if x.counted then 1 else 0)))
  {
    var added := r.added + [x];
    assert added[..|r.added|] == r.added;
    assert Counted(added) == Counted(r.added) + (if x.counted then 1 else 0);
    forall i | 0 <= i < |added|
      ensures added[i].key !in l0
    {
      if i == |r.added| {
        assert added[i] == x;
      } else {
        assert added[i] == r.added[i];
      }
    }
    forall i, j | 0 <= i < j < |added| && added[i].counted
      ensures added[i].key != added[j].key
    {
      assert added[i] == r.added[i];
      if j == |r.added| {
        assert added[j] == x;
        assert r.added[i].key in CountedKeys(r.added);
      } else {
        assert added[j] == r.added[j];
      }
    }
    CountedKeysSnoc(r.added, x);
  }

  /** The invariant holds after any prefix of the listing, and the ledger only grows. */
  lemma {:induction false} WalkConsistent(l0: set<string>, cs: seq<Candidate>, r: Run)
    requires Consistent(l0, r)
    ensures Walk(cs, r).Finished? ==> Consistent(l0, Walk(cs, r).run)
    ensures Walk(cs, r).Finished? ==> r.ledger <= Walk(cs, r).run.ledger
    ensures Walk(cs, r).Finished? ==> |Walk(cs, r).run.added| <= |r.added| + |cs|
  {
    if cs != [] {
      var init := cs[..|cs| - 1];
      WalkConsistent(l0, init, r);
      if Walk(init, r).Finished? {
        StepConsistent(l0, Walk(init, r).run, cs[|cs| - 1]);
      }
    }
  }

  /**
   * A run from the loaded ledger: no two counted entries share a key, no
   * added entry repeats a loaded key, the ledger is the loaded keys plus
   * the counted ones, at most one entry is added per item, and the feed is
   * written exactly when an entry was counted.
   */
  lemma RunFromLoaded(l0: set<string>, cs: seq<Candidate>)
    requires Walk(cs, Start(l0)).Finished?
    ensures var r := Walk(cs, Start(l0)).run;
      && (forall i :: 0 <= i < |r.added| ==> r.added[i].key !in l0)
      && (forall i, j :: 0 <= i < j < |r.added| && r.added[i].counted && r.added[j].counted ==> r.added[i].key != r.added[j].key)
      && r.ledger == l0 + CountedKeys(r.added)
      && l0 <= r.ledger
      && |r.added| <= |cs|
      && (Written(Walk(cs, Start(l0))) <==> Counted(r.added) > 0)
  {
    assert CountedKeys([]) == {};
    WalkConsistent(l0, cs, Start(l0));
  }

  lemma StepFrom(r1: Run, r2: Run, c: Candidate)
    requires Step(r1, c).Finished?
    requires Step(r1, c).run.ledger <= r2.ledger
    ensures Step(r2, c).Finished? && Step(r2, c).run.ledger == r2.ledger && Step(r2, c).run.newEntries == r2.newEntries
  {
    if c.Keyed? && c.key !in r2.ledger {
      assert c.key !in r1.ledger;
    }
  }

  lemma {:induction false} WalkAgain(cs: seq<Candidate>, r1: Run, r2: Run)
    requires Walk(cs, r1).Finished?
    requires Walk(cs, r1).run.ledger <= r2.ledger
    ensures Walk(cs, r2).Finished? && Walk(cs, r2).run.ledger == r2.ledger && Walk(cs, r2).run.newEntries == r2.newEntries
  {
    if cs != [] {
      var init := cs[..|cs| - 1];
      var last := cs[|cs| - 1];
      assert Walk(init, r1).Finished?;
      var mid := Walk(init, r1).run;
      assert mid.ledger <= Step(mid, last).run.ledger by {
        if last.Keyed? && last.key !in mid.ledger && last.outcome.Emit? && last.outcome.counted {
          assert Step(mid, last).run.ledger == mid.ledger + {last.key};
        }
      }
      WalkAgain(init, r1, r2);
      StepFrom(mid, Walk(init, r2).run, last);
    }
  }

  /**
   * Running the loop again over the same listing and detail pages, with a
   * ledger that holds everything the first run ended with, counts nothing
   * and writes nothing.
   */
  lemma RerunCountsNothing(cs: seq<Candidate>, l0: set<string>, l1: set<string>)
    requires Walk(cs, Start(l0)).Finished?
    requires Walk(cs, Start(l0)).run.ledger <= l1
    ensures Walk(cs, Start(l1)).Finished?
    ensures Walk(cs, Start(l1)).run.newEntries == 0 && !Written(Walk(cs, Start(l1)))
  {
    WalkAgain(cs, Start(l0), Start(l1));
  }

  /** Every added entry comes from an item of the listing, in listing order. */
  lemma {:induction false} WalkAddsFromListing(cs: seq<Candidate>, r: Run)
    requires Walk(cs, r).Finished?
    ensures var a := Walk(cs, r).run.added;
      |r.added| <= |a| && a[..|r.added|] == r.added
      && forall n :: |r.added| <= n < |a| ==> exists i :: 0 <= i < |cs| && cs[i] == Keyed(a[n].key, Emit(a[n].entry, a[n].counted))
  {
    if cs != [] {
      var init := cs[..|cs| - 1];
      var last := cs[|cs| - 1];
      WalkAddsFromListing(init, r);
      var mid := Walk(init, r).run;
      var a := Walk(cs, r).run.added;
      forall n | |r.added| <= n < |a|
        ensures exists i :: 0 <= i < |cs| && cs[i] == Keyed(a[n].key, Emit(a[n].entry, a[n].counted))
      {
        if n < |mid.added| {
          assert a[n] == mid.added[n];
          var i :| 0 <= i < |init| && init[i] == Keyed(mid.added[n].key, Emit(mid.added[n].entry, mid.added[n].counted));
          assert cs[i] == init[i];
        } else {
          assert cs[|cs| - 1] == Keyed(a[n].key, Emit(a[n].entry, a[n].counted));
        }
      }
    }
  }

  /** A listing none of whose items reaches `add_entry` leaves the state as it was. */
  lemma {:induction false} WalkWithoutEmit(cs: seq<Candidate>, r: Run)
    requires forall i :: 0 <= i < |cs| ==> !(cs[i].Keyed? && cs[i].outcome.Emit?)
    requires Walk(cs, r).Finished?
    ensures Walk(cs, r).run == r
  {
    if cs != [] {
      WalkWithoutEmit(cs[..|cs| - 1], r);
    }
  }

  /**
   * The feed file written at the end: only this run's entries, each titled.
   * Loading it back yields the keys of the added entries when every
   * emitted entry carries the title its key was taken from.
   */
  function WrittenFile(r: Run): FeedFile
  {
    Parsed(seq(|r.added|, i requires 0 <= i < |r.added| => Some(r.added[i].entry.title)))
  }

  /** An item that adds an entry is keyed by that entry's own non-empty title. */
  predicate EmitsOwnTitle(u: Unicode, c: Candidate)
  {
    c.Keyed? && c.outcome.Emit? ==> c.outcome.entry.title != "" && c.key == TitleKey(u, c.outcome.entry.title)
  }

  predicate KeyedByTitle(u: Unicode, cs: seq<Candidate>)
  {
    forall i :: 0 <= i < |cs| ==> EmitsOwnTitle(u, cs[i])
  }

  lemma ReloadHasCountedKeys(u: Unicode, cs: seq<Candidate>, l0: set<string>)
    requires KeyedByTitle(u, cs)
    requires Walk(cs, Start(l0)).Finished?
    ensures CountedKeys(Walk(cs, Start(l0)).run.added) <= FileKeys(u, WrittenFile(Walk(cs, Start(l0)).run))
  {
    var r := Walk(cs, Start(l0)).run;
    WalkAddsFromListing(cs, Start(l0));
    forall n | 0 <= n < |r.added|
      ensures r.added[n].entry.title != "" && r.added[n].key == TitleKey(u, r.added[n].entry.title)
    {
      var i :| 0 <= i < |cs| && cs[i] == Keyed(r.added[n].key, Emit(r.added[n].entry, r.added[n].counted));
    }
    WrittenHasKeys(u, r.added);
  }

  /** Entries keyed by their own non-empty titles are all found again in the file written from them. */
  lemma WrittenHasKeys(u: Unicode, added: seq<Added>)
    requires forall n :: 0 <= n < |added| ==> added[n].entry.title != "" && added[n].key == TitleKey(u, added[n].entry.title)
    ensures CountedKeys(added) <= FileKeys(u, WrittenFile(Run(added, {}, 0)))
  {
    var titles := WrittenFile(Run(added, {}, 0)).titles;
    forall k | k in CountedKeys(added)
      ensures k in TitleKeys(u, titles)
    {
      var n :| 0 <= n < |added| && added[n].counted && added[n].key == k;
      assert titles[n] == Some(added[n].entry.title);
      TitleKeysHas(u, titles, n);
    }
  }

  /**
   * The whole cycle: after a run writes its feed over the local copy, the
   * next run over the same listing, whose ledger is loaded from the same
   * deployed copy and the written file, counts nothing and writes nothing,
   * provided the deployed copy already held every key of the local one
   * (the written file keeps only this run's entries).
   */
  lemma NextRunAfterWrite(u: Unicode, cs: seq<Candidate>, deployed: FeedFile, local: FeedFile)
    requires KeyedByTitle(u, cs)
    requires FileKeys(u, local) <= FileKeys(u, deployed)
    requires Written(Walk(cs, Start(FileKeys(u, deployed) + FileKeys(u, local))))
    ensures var l0 := FileKeys(u, deployed) + FileKeys(u, local);
      var next := FileKeys(u, deployed) + FileKeys(u, WrittenFile(Walk(cs, Start(l0)).run));
      Walk(cs, Start(next)).Finished? && !Written(Walk(cs, Start(next)))
  {
    var l0 := FileKeys(u, deployed) + FileKeys(u, local);
    var r := Walk(cs, Start(l0)).run;
    RunFromLoaded(l0, cs);
    ReloadHasCountedKeys(u, cs, l0);
    var next := FileKeys(u, deployed) + FileKeys(u, WrittenFile(r));
    RerunCountsNothing(cs, l0, next);
  }
}
