/**
 * The search loop of `main`: for every allowed extension, in table order,
 * one `filetype:` query goes to the engines in fallback order until one
 * returns a non-empty list; matching new URLs are collected until the cap.
 *
 * Each engine's `search` is an oracle from engine and query to its link list,
 * and the loop's log calls and pauses are recorded as events.
 */
module Planner {
  import opened Text
  import opened Extensions
  import opened Engines

  /** `SEARCH_PAUSE`, in seconds. */
  const SearchPause: nat := 2

  datatype Event = Searched(engine: Engine, query: string, results: seq<string>) | Paused(seconds: nat)

  type Oracle = (Engine, string) -> seq<string>

  /** `f"{subject} filetype:{ext.lstrip('.')}"`. */
  function Query(subject: string, ext: string): string {
    subject + " filetype:" + LStripChar(ext, '.')
  }

  /** The log of engines that all returned nothing: each search is followed by a pause. */
  function EmptyLog(engines: seq<Engine>, query: string): seq<Event> {
    if engines == [] then [] else [Searched(engines[0], query, []), Paused(SearchPause)] + EmptyLog(engines[1..], query)
  }

  /** The engine loop for one query: the first non-empty list, and what happened on the way to it. */
  function Fallback(search: Oracle, order: seq<Engine>, query: string): (seq<string>, seq<Event>) {
    if order == [] then ([], [])
    else
      var res := search(order[0], query);
      if res != [] then (res, [Searched(order[0], query, res)])
      else
        var rest := Fallback(search, order[1..], query);
        (rest.0, [Searched(order[0], query, []), Paused(SearchPause)] + rest.1)
  }

  /** Appending the results that end with `ext` and are new, stopping as soon as `max` URLs are held. */
  function Absorb(docs: seq<string>, results: seq<string>, ext: string, max: int): seq<string>
    decreases |results|
  {
    if results == [] then docs
    else
      var u := results[0];
      if EndsWith(Lower(u), ext) && u !in docs then
        if |docs + [u]| >= max then docs + [u] else Absorb(docs + [u], results[1..], ext, max)
      else Absorb(docs, results[1..], ext, max)
  }

  /** The whole search loop over the extensions `keys`, from the URLs `docs`. */
  function Plan(search: Oracle, order: seq<Engine>, subject: string, keys: seq<string>, max: int, docs: seq<string>)
    : (seq<string>, seq<Event>)
  {
    if keys == [] || |docs| >= max then (docs, [])
    else
      var found := Fallback(search, order, Query(subject, keys[0]));
      var rest := Plan(search, order, subject, keys[1..], max, Absorb(docs, found.0, keys[0], max));
      (rest.0, found.1 + rest.1)
  }

  /** Every result list a search in `log` returned, concatenated in order. */
  function Seen(log: seq<Event>): seq<string> {
    if log == [] then []
    else (if log[0].Searched? then log[0].results else []) + Seen(log[1..])
  }

  lemma {:induction false} SeenAppend(a: seq<Event>, b: seq<Event>)
    ensures Seen(a + b) == Seen(a) + Seen(b)
  {
    if a == [] {
      assert a + b == b;
    } else {
      assert (a + b)[1..] == a[1..] + b;
      SeenAppend(a[1..], b);
    }
  }

  /**
   * When the engine at `i` is the first with results, the engines before it
   * were each searched and followed by a pause, and none after it is queried.
   */
  lemma {:induction false} FallbackHit(search: Oracle, order: seq<Engine>, query: string, i: int)
    requires 0 <= i < |order| && search(order[i], query) != []
    requires forall j :: 0 <= j < i ==> search(order[j], query) == []
    ensures Fallback(search, order, query)
      == (search(order[i], query), EmptyLog(order[..i], query) + [Searched(order[i], query, search(order[i], query))])
  {
    var hit := [Searched(order[i], query, search(order[i], query))];
    if i == 0 {
      assert EmptyLog(order[..0], query) + hit == hit;
    } else {
      forall j | 0 <= j < i - 1 ensures search(order[1..][j], query) == [] {
        assert order[1..][j] == order[j + 1];
      }
      FallbackHit(search, order[1..], query, i - 1);
      assert order[1..][..i - 1] == order[..i][1..];
      assert order[..i][0] == order[0];
      assert order[1..][i - 1] == order[i];
      assert search(order[0], query) == [];
      var head := [Searched(order[0], query, []), Paused(SearchPause)];
      assert EmptyLog(order[..i], query) == head + EmptyLog(order[..i][1..], query);
      assert head + (EmptyLog(order[..i][1..], query) + hit) == (head + EmptyLog(order[..i][1..], query)) + hit;
    }
  }

  /** When every engine returns nothing, each is searched once and followed by a pause. */
  lemma {:induction false} FallbackMiss(search: Oracle, order: seq<Engine>, query: string)
    requires forall j :: 0 <= j < |order| ==> search(order[j], query) == []
    ensures Fallback(search, order, query) == ([], EmptyLog(order, query))
  {
    if order != [] {
      FallbackMiss(search, order[1..], query);
    }
  }

  /** The results of the fallback are exactly the ones its log shows. */
  lemma {:induction false} FallbackSeen(search: Oracle, order: seq<Engine>, query: string)
    ensures Seen(Fallback(search, order, query).1) == Fallback(search, order, query).0
  {
    if order != [] && search(order[0], query) == [] {
      FallbackSeen(search, order[1..], query);
      var rest := Fallback(search, order[1..], query);
      SeenAppend([Searched(order[0], query, []), Paused(SearchPause)], rest.1);
      assert Seen([Searched(order[0], query, []), Paused(SearchPause)]) == [];
    } else if order != [] {
      var res := search(order[0], query);
      assert Seen([Searched(order[0], query, res)]) == res + Seen([]);
    }
  }

  /**
   * Absorbing keeps what was held, adds no duplicate, stops at the cap, and
   * adds only results that end with `ext`, in the order they were found.
   */
  lemma {:induction false} AbsorbProperties(docs: seq<string>, results: seq<string>, ext: string, max: int)
    requires NoDuplicates(docs)
    ensures var r := Absorb(docs, results, ext, max);
      && |docs| <= |r| && r[..|docs|] == docs
      && NoDuplicates(r)
      && (|docs| < max ==> |r| <= max)
      && IsSubsequence(r[|docs|..], results)
      && forall i :: |docs| <= i < |r| ==> EndsWith(Lower(r[i]), ext)
    decreases |results|
  {
    var r := Absorb(docs, results, ext, max);
    if results == [] {
      EmptyIsSubsequence(results);
    } else {
      var u := results[0];
      if EndsWith(Lower(u), ext) && u !in docs {
        var d := docs + [u];
        assert NoDuplicates(d);
        if |d| >= max {
          EmptyIsSubsequence(results[1..]);
          assert r[|docs|..] == [u];
        } else {
          AbsorbProperties(d, results[1..], ext, max);
          assert r[|docs|..][1..] == r[|d|..];
          assert r[|docs|..][0] == u;
        }
      } else {
        AbsorbProperties(docs, results[1..], ext, max);
      }
    }
  }

  /**
   * The uncapped stream of what accumulation would add: each result that
   * ends with `ext` and is not yet held, once, in the order it was returned.
   */
  function NewMatches(docs: seq<string>, results: seq<string>, ext: string): seq<string>
    decreases |results|
  {
    if results == [] then []
    else
      var u := results[0];
      if EndsWith(Lower(u), ext) && u !in docs then [u] + NewMatches(docs + [u], results[1..], ext)
      else NewMatches(docs, results[1..], ext)
  }

  /** A URL is in the stream exactly when it is a matching result not already held. */
  lemma {:induction false} NewMatchesMembers(docs: seq<string>, results: seq<string>, ext: string, u: string)
    ensures u in NewMatches(docs, results, ext) <==> u in results && EndsWith(Lower(u), ext) && u !in docs
    decreases |results|
  {
    if results != [] {
      var v := results[0];
      assert results == [v] + results[1..];
      if EndsWith(Lower(v), ext) && v !in docs {
        NewMatchesMembers(docs + [v], results[1..], ext, u);
      } else {
        NewMatchesMembers(docs, results[1..], ext, u);
      }
    }
  }

  /** The held URLs followed by the stream repeat no URL. */
  lemma {:induction false} NewMatchesDistinct(docs: seq<string>, results: seq<string>, ext: string)
    requires NoDuplicates(docs)
    ensures NoDuplicates(docs + NewMatches(docs, results, ext))
    decreases |results|
  {
    if results != [] {
      var v := results[0];
      if EndsWith(Lower(v), ext) && v !in docs {
        NewMatchesDistinct(docs + [v], results[1..], ext);
        assert docs + NewMatches(docs, results, ext) == docs + [v] + NewMatches(docs + [v], results[1..], ext);
      } else {
        NewMatchesDistinct(docs, results[1..], ext);
      }
    }
  }

  lemma TakeCons(u: string, s: seq<string>, k: int)
    requires k >= 1
    ensures Take([u] + s, k) == [u] + Take(s, k - 1)
  {
  }

  /**
   * Accumulation is the stream of new matches cut at the cap: it adds at most
   * `max - |docs|` of them, and one when the cap is already reached.
   */
  lemma {:induction false} AbsorbIsCappedNewMatches(docs: seq<string>, results: seq<string>, ext: string, max: int)
    ensures Absorb(docs, results, ext, max) == docs + Take(NewMatches(docs, results, ext), Max(1, max - |docs|))
    decreases |results|
  {
    if results != [] {
      var u := results[0];
      var rest := results[1..];
      if EndsWith(Lower(u), ext) && u !in docs {
        var d := docs + [u];
        TakeCons(u, NewMatches(d, rest, ext), Max(1, max - |docs|));
        if |d| < max {
          AbsorbIsCappedNewMatches(d, rest, ext, max);
          assert Max(1, max - |d|) == Max(1, max - |docs|) - 1;
        }
      } else {
        AbsorbIsCappedNewMatches(docs, rest, ext, max);
      }
    }
  }

  /** Below the cap nothing was dropped: every matching result ends up held. */
  lemma AbsorbComplete(docs: seq<string>, results: seq<string>, ext: string, max: int, u: string)
    requires |Absorb(docs, results, ext, max)| < max
    requires u in results && EndsWith(Lower(u), ext)
    ensures u in Absorb(docs, results, ext, max)
  {
    AbsorbIsCappedNewMatches(docs, results, ext, max);
    var s := NewMatches(docs, results, ext);
    assert Take(s, Max(1, max - |docs|)) == s;
    NewMatchesMembers(docs, results, ext, u);
  }

  /** The cap holds, held URLs are kept and no URL is collected twice. */
  lemma {:induction false} PlanBounds(search: Oracle, order: seq<Engine>, subject: string, keys: seq<string>, max: int,
                                      docs: seq<string>)
    requires NoDuplicates(docs)
    ensures var r := Plan(search, order, subject, keys, max, docs).0;
      && |docs| <= |r| && r[..|docs|] == docs
      && NoDuplicates(r)
      && |r| <= Max(|docs|, max)
  {
    if keys != [] && |docs| < max {
      var found := Fallback(search, order, Query(subject, keys[0]));
      var next := Absorb(docs, found.0, keys[0], max);
      AbsorbProperties(docs, found.0, keys[0], max);
      PlanBounds(search, order, subject, keys[1..], max, next);
    }
  }

  /**
   * Every URL collected came, for some extension, from the list returned for
   * that extension's query, and lower-cased it ends with that extension.
   */
  lemma {:induction false} PlanSources(search: Oracle, order: seq<Engine>, subject: string, keys: seq<string>, max: int,
                                       docs: seq<string>)
    requires NoDuplicates(docs)
    ensures var r := Plan(search, order, subject, keys, max, docs).0;
      forall i :: |docs| <= i < |r| ==> exists k :: 0 <= k < |keys| && FoundFor(search, order, subject, keys[k], r[i])
  {
    if keys != [] && |docs| < max {
      var found := Fallback(search, order, Query(subject, keys[0]));
      var next := Absorb(docs, found.0, keys[0], max);
      AbsorbProperties(docs, found.0, keys[0], max);
      PlanSources(search, order, subject, keys[1..], max, next);
      PlanBounds(search, order, subject, keys[1..], max, next);
      var r := Plan(search, order, subject, keys, max, docs).0;
      forall i | |docs| <= i < |r|
        ensures exists k :: 0 <= k < |keys| && FoundFor(search, order, subject, keys[k], r[i])
      {
        if i < |next| {
          assert r[i] == next[i];
          SubsequenceMember(next[|docs|..], found.0, i - |docs|);
          assert FoundFor(search, order, subject, keys[0], r[i]);
        } else {
          var k :| 0 <= k < |keys[1..]| && FoundFor(search, order, subject, keys[1..][k], r[i]);
          assert keys[1..][k] == keys[k + 1];
        }
      }
    }
  }

  /** `u` was returned for the query of `ext` and, lower-cased, ends with `ext`. */
  predicate FoundFor(search: Oracle, order: seq<Engine>, subject: string, ext: string, u: string) {
    EndsWith(Lower(u), ext) && u in Fallback(search, order, Query(subject, ext)).0
  }

  lemma {:induction false} SubsequenceMember<T>(a: seq<T>, b: seq<T>, i: int)
    requires IsSubsequence(a, b) && 0 <= i < |a|
    ensures a[i] in b
    decreases |b|
  {
    if a[0] == b[0] && IsSubsequence(a[1..], b[1..]) {
      if i > 0 {
        SubsequenceMember(a[1..], b[1..], i - 1);
      }
    } else {
      SubsequenceMember(a, b[1..], i);
    }
  }

  /** The collected URLs keep the order in which the searches returned them. */
  lemma {:induction false} PlanOrder(search: Oracle, order: seq<Engine>, subject: string, keys: seq<string>, max: int,
                                     docs: seq<string>)
    requires NoDuplicates(docs)
    ensures var p := Plan(search, order, subject, keys, max, docs);
      |docs| <= |p.0| && IsSubsequence(p.0[|docs|..], Seen(p.1))
  {
    PlanBounds(search, order, subject, keys, max, docs);
    var p := Plan(search, order, subject, keys, max, docs);
    if keys == [] || |docs| >= max {
      EmptyIsSubsequence(Seen(p.1));
    } else {
      var found := Fallback(search, order, Query(subject, keys[0]));
      var next := Absorb(docs, found.0, keys[0], max);
      AbsorbProperties(docs, found.0, keys[0], max);
      PlanOrder(search, order, subject, keys[1..], max, next);
      PlanBounds(search, order, subject, keys[1..], max, next);
      var rest := Plan(search, order, subject, keys[1..], max, next);
      FallbackSeen(search, order, Query(subject, keys[0]));
      SeenAppend(found.1, rest.1);
      SubsequenceConcat(next[|docs|..], found.0, rest.0[|next|..], Seen(rest.1));
      assert p.0[|docs|..] == next[|docs|..] + rest.0[|next|..];
    }
  }

  /** Once the cap is reached after the first `k` extensions, the remaining ones are never searched. */
  lemma {:induction false} PlanStopsAtCap(search: Oracle, order: seq<Engine>, subject: string, keys: seq<string>,
                                          max: int, docs: seq<string>, k: int)
    requires 0 <= k <= |keys|
    requires |Plan(search, order, subject, keys[..k], max, docs).0| >= max
    ensures Plan(search, order, subject, keys, max, docs) == Plan(search, order, subject, keys[..k], max, docs)
  {
    if k > 0 && |docs| < max {
      var found := Fallback(search, order, Query(subject, keys[0]));
      var next := Absorb(docs, found.0, keys[0], max);
      assert keys[..k][0] == keys[0] && keys[..k][1..] == keys[1..][..k - 1];
      PlanStopsAtCap(search, order, subject, keys[1..], max, next, k - 1);
    }
  }

  /** The inner loop over one result list: `Absorb`. */
  method Accumulate(docs: seq<string>, results: seq<string>, ext: string, max: int) returns (r: seq<string>)
    requires NoDuplicates(docs)
    ensures r == Absorb(docs, results, ext, max)
    ensures |docs| <= |r| && r[..|docs|] == docs && NoDuplicates(r)
    ensures |docs| < max ==> |r| <= max
    ensures forall i :: |docs| <= i < |r| ==> EndsWith(Lower(r[i]), ext) && r[i] in results
    ensures |r| < max ==> forall u :: u in results && EndsWith(Lower(u), ext) ==> u in r
  {
    r := docs;
    var j := 0;
    while j < |results|
      invariant 0 <= j <= |results|
      invariant Absorb(docs, results, ext, max) == Absorb(r, results[j..], ext, max)
    {
      var u := results[j];
      assert results[j..][1..] == results[j + 1..];
      if EndsWith(Lower(u), ext) && u !in r {
        r := r + [u];
        if |r| >= max {
          break;
        }
      }
      j := j + 1;
    }
    AbsorbProperties(docs, results, ext, max);
    forall i | |docs| <= i < |r| ensures r[i] in results {
      SubsequenceMember(r[|docs|..], results, i - |docs|);
    }
    forall u | |r| < max && u in results && EndsWith(Lower(u), ext) ensures u in r {
      AbsorbComplete(docs, results, ext, max, u);
    }
  }

  /** One pass of the engine loop for the extension `ext`: fallback search, then accumulation from the first non-empty list. */
  method SearchExtension(search: Oracle, order: seq<Engine>, query: string, ext: string, max: int, docs: seq<string>)
    returns (r: seq<string>, events: seq<Event>)
    requires NoDuplicates(docs)
    ensures (r, events) == (Absorb(docs, Fallback(search, order, query).0, ext, max), Fallback(search, order, query).1)
  {
    r, events := docs, [];
    var e := 0;
    assert order[0..] == order;
    assert events + Fallback(search, order, query).1 == Fallback(search, order, query).1;
    while e < |order|
      invariant 0 <= e <= |order| && r == docs
      invariant var f := Fallback(search, order[e..], query);
        Fallback(search, order, query) == (f.0, events + f.1)
    {
      var name := order[e];
      var results := search(name, query);
      assert order[e..][0] == name && order[e..][1..] == order[e + 1..];
      ghost var seen := events;
      events := events + [Searched(name, query, results)];
      if results != [] {
        assert Fallback(search, order[e..], query) == (results, [Searched(name, query, results)]);
        r := Accumulate(docs, results, ext, max);
        return;
      }
      events := events + [Paused(SearchPause)];
      var rest := Fallback(search, order[e + 1..], query);
      assert seen + ([Searched(name, query, results), Paused(SearchPause)] + rest.1) == events + rest.1;
      e := e + 1;
    }
    assert order[e..] == [];
    assert events + Fallback(search, order[e..], query).1 == events;
  }

  /** What the search loop promises, from no URLs: bounded by the cap, duplicate-free, in discovery order, each with an allowed suffix. */
  lemma PlanProperties(search: Oracle, order: seq<Engine>, subject: string, allowed: Table, max: int)
    ensures var p := Plan(search, order, subject, Keys(allowed), max, []);
      && NoDuplicates(p.0) && |p.0| <= Max(0, max)
      && IsSubsequence(p.0, Seen(p.1))
      && forall i :: 0 <= i < |p.0| ==> exists k :: 0 <= k < |allowed| && EndsWith(Lower(p.0[i]), allowed[k].0)
  {
    var keys := Keys(allowed);
    var p := Plan(search, order, subject, keys, max, []);
    PlanBounds(search, order, subject, keys, max, []);
    PlanOrder(search, order, subject, keys, max, []);
    assert p.0[0..] == p.0;
    PlanSources(search, order, subject, keys, max, []);
    forall i | 0 <= i < |p.0| ensures exists k :: 0 <= k < |allowed| && EndsWith(Lower(p.0[i]), allowed[k].0) {
      var k :| 0 <= k < |keys| && FoundFor(search, order, subject, keys[k], p.0[i]);
      assert keys[k] == allowed[k].0;
    }
  }

  /** The search loop of `main` over the keys of `allowed`, with `primary` tried first. */
  method SearchCandidates(search: Oracle, primary: Engine, subject: string, allowed: Table, max: int)
    returns (docs: seq<string>, log: seq<Event>)
    ensures (docs, log) == Plan(search, FallbackOrder(primary), subject, Keys(allowed), max, [])
    ensures NoDuplicates(docs) && |docs| <= Max(0, max)
    ensures IsSubsequence(docs, Seen(log))
    ensures forall i :: 0 <= i < |docs| ==> exists k :: 0 <= k < |allowed| && EndsWith(Lower(docs[i]), allowed[k].0)
  {
    var order := FallbackOrder(primary);
    var keys := Keys(allowed);
    docs, log := [], [];
    var x := 0;
    assert keys[0..] == keys;
    assert log + Plan(search, order, subject, keys, max, docs).1 == Plan(search, order, subject, keys, max, docs).1;
    while x < |keys|
      invariant 0 <= x <= |keys| && NoDuplicates(docs)
      invariant var p := Plan(search, order, subject, keys[x..], max, docs);
        Plan(search, order, subject, keys, max, []) == (p.0, log + p.1)
    {
      if |docs| >= max {
        break;
      }
      var events;
      ghost var before := docs;
      ghost var logged := log;
      var query := Query(subject, keys[x]);
      docs, events := SearchExtension(search, order, query, keys[x], max, docs);
      AbsorbProperties(before, Fallback(search, order, query).0, keys[x], max);
      PlanStep(search, order, subject, keys, max, before, x);
      log := log + events;
      ghost var rest := Plan(search, order, subject, keys[x + 1..], max, docs);
      ConcatAssoc3(logged, events, rest.1);
      x := x + 1;
    }
    PlanDone(search, order, subject, keys, max, docs, x);
    assert log + [] == log;
    PlanProperties(search, order, subject, allowed, max);
  }

  /** One round of the search loop: the plan from key `x` on is that key's round followed by the rest. */
  lemma PlanStep(search: Oracle, order: seq<Engine>, subject: string, keys: seq<string>, max: int, docs: seq<string>, x: nat)
    requires x < |keys| && |docs| < max
    ensures var found := Fallback(search, order, Query(subject, keys[x]));
      var rest := Plan(search, order, subject, keys[x + 1..], max, Absorb(docs, found.0, keys[x], max));
      Plan(search, order, subject, keys[x..], max, docs) == (rest.0, found.1 + rest.1)
  {
    assert keys[x..][0] == keys[x] && keys[x..][1..] == keys[x + 1..];
  }

  /** The search loop ends when the keys run out or the cap is reached. */
  lemma PlanDone(search: Oracle, order: seq<Engine>, subject: string, keys: seq<string>, max: int, docs: seq<string>, x: nat)
    requires x <= |keys| && (x == |keys| || |docs| >= max)
    ensures Plan(search, order, subject, keys[x..], max, docs) == (docs, [])
  {
    assert x == |keys| ==> keys[x..] == [];
  }
}
