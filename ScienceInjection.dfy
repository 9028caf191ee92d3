/**
 * rdInject and Update as functions on values: each frame, until a pass has
 * completed once, the staged science results are merged into every experiment's
 * Results map, inserting only biomes the map does not hold yet.
 */
module ScienceInjection {
  import opened Wrappers
  import opened ScienceResults

  /** An experiment's Results: biome name to result text. */
  type Results = map<string, string>

  /** ResearchAndDevelopment's experiments by id. */
  type Registry = map<string, Results>

  /** The staged entry `e` is one for experiment `id` and biome `biome`. */
  predicate Matches(e: SciResult, id: string, biome: string) {
    e.expid == id && e.biome == biome
  }

  /** The result text of the first staged entry for (id, biome), if there is one. */
  function FirstResult(entries: seq<SciResult>, id: string, biome: string): (r: Option<string>)
    ensures r.None? <==> forall k | 0 <= k < |entries| :: !Matches(entries[k], id, biome)
    ensures r.Some? ==> exists k | 0 <= k < |entries| ::
              Matches(entries[k], id, biome) && entries[k].res == r.value
              && forall j | 0 <= j < k :: !Matches(entries[j], id, biome)
    decreases |entries|
  {
    if entries == [] then None
    else if Matches(entries[0], id, biome) then
      Some(entries[0].res)
    else
      var r := FirstResult(entries[1..], id, biome);
      assert forall k | 0 < k < |entries| :: entries[k] == entries[1..][k - 1];
      if r.Some? then
        var k :| 0 <= k < |entries[1..]| && Matches(entries[1..][k], id, biome) && entries[1..][k].res == r.value
                 && forall j | 0 <= j < k :: !Matches(entries[1..][j], id, biome);
        assert forall j | 0 <= j < k + 1 :: !Matches(entries[j], id, biome) by {
          forall j | 0 <= j < k + 1 ensures !Matches(entries[j], id, biome) {
            if j > 0 { assert entries[j] == entries[1..][j - 1]; }
          }
        }
        assert Matches(entries[k + 1], id, biome) && entries[k + 1].res == r.value;
        r
      else
        r
  }

  /** The inner foreach of rdInject for experiment `id`: every staged entry for `id` whose biome is absent is added. */
  function MergeInto(results: Results, id: string, entries: seq<SciResult>): (r: Results)
    ensures results.Keys <= r.Keys && forall biome | biome in results :: r[biome] == results[biome]
    decreases |entries|
  {
    if entries == [] then results
    else
      var e := entries[0];
      var next := if e.expid == id && e.biome !in results then results[e.biome := e.res] else results;
      MergeInto(next, id, entries[1..])
  }

  /**
   * After the merge a biome is present exactly when it was before or some staged entry
   * for this experiment names it; a present biome keeps its text, and a new one takes
   * the text of the first staged entry for it.
   */
  lemma {:induction false} MergeIntoSpec(results: Results, id: string, entries: seq<SciResult>, biome: string)
    ensures var m := MergeInto(results, id, entries);
            && (biome in m <==> biome in results || FirstResult(entries, id, biome).Some?)
            && (biome in results ==> m[biome] == results[biome])
            && (biome !in results && FirstResult(entries, id, biome).Some? ==> m[biome] == FirstResult(entries, id, biome).value)
    decreases |entries|
  {
    if entries != [] {
      var e := entries[0];
      var next := if e.expid == id && e.biome !in results then results[e.biome := e.res] else results;
      MergeIntoSpec(next, id, entries[1..], biome);
    }
  }

  /** Two merges in a row add nothing the first did not. */
  lemma MergeIdempotent(results: Results, id: string, entries: seq<SciResult>)
    ensures MergeInto(MergeInto(results, id, entries), id, entries) == MergeInto(results, id, entries)
  {
    var m1 := MergeInto(results, id, entries);
    var m2 := MergeInto(m1, id, entries);
    forall biome ensures (biome in m2 <==> biome in m1) && (biome in m1 ==> m2[biome] == m1[biome]) {
      MergeIntoSpec(results, id, entries, biome);
      MergeIntoSpec(m1, id, entries, biome);
    }
  }

  /** Some staged entry is for experiment `id`. */
  predicate Named(entries: seq<SciResult>, id: string) {
    exists k | 0 <= k < |entries| :: entries[k].expid == id
  }

  /**
   * An id at which the outer foreach throws: GetExperiment gives null for it, and a staged
   * entry for it reaches exp.Results (the && on line 305 short-circuits for the other entries).
   */
  predicate Throws(registry: Registry, entries: seq<SciResult>, id: string) {
    id !in registry && Named(entries, id)
  }

  /** How far the outer foreach gets: the index of the first id it throws at, or |ids|. */
  function Reached(registry: Registry, ids: seq<string>, entries: seq<SciResult>): (n: nat)
    ensures n <= |ids|
    ensures forall k | 0 <= k < n :: !Throws(registry, entries, ids[k])
    ensures n < |ids| ==> Throws(registry, entries, ids[n])
    decreases |ids|
  {
    if ids == [] || Throws(registry, entries, ids[0]) then 0
    else
      var n := Reached(registry, ids[1..], entries);
      assert forall k | 0 < k < n + 1 :: ids[k] == ids[1..][k - 1];
      n + 1
  }

  /**
   * One pass of the outer foreach over the experiment ids: each id's Results are merged in
   * place; an id with no experiment is passed over when no staged entry names it, and
   * otherwise throws (exp.Results on null), keeping the earlier merges. The flag says
   * whether the pass reached its end.
   */
  function InjectPass(registry: Registry, ids: seq<string>, entries: seq<SciResult>): (r: (Registry, bool))
    ensures r.0.Keys == registry.Keys
    decreases |ids|
  {
    if ids == [] then (registry, true)
    else if ids[0] !in registry then
      if Named(entries, ids[0]) then (registry, false) else InjectPass(registry, ids[1..], entries)
    else InjectPass(registry[ids[0] := MergeInto(registry[ids[0]], ids[0], entries)], ids[1..], entries)
  }

  /**
   * A pass keeps the set of experiments, completes exactly when it throws at no id, and
   * leaves each experiment merged when its id comes before the first id it throws at,
   * untouched otherwise (an id listed twice is merged once in effect).
   */
  lemma {:induction false} InjectPassSpec(registry: Registry, ids: seq<string>, entries: seq<SciResult>, id: string)
    ensures var (r, ok) := InjectPass(registry, ids, entries);
            && r.Keys == registry.Keys
            && (ok <==> Reached(registry, ids, entries) == |ids|)
            && (id in registry ==> r[id] == if id in ids[..Reached(registry, ids, entries)] then MergeInto(registry[id], id, entries) else registry[id])
    decreases |ids|
  {
    if ids != [] && ids[0] in registry {
      var x := ids[0];
      var next := registry[x := MergeInto(registry[x], x, entries)];
      InjectPassSpec(next, ids[1..], entries, id);
      assert next.Keys == registry.Keys;
      assert Reached(next, ids[1..], entries) == Reached(registry, ids[1..], entries) by {
        ReachedSameKeys(next, registry, ids[1..], entries);
      }
      var n := Reached(registry, ids, entries);
      assert ids[..n] == [x] + ids[1..][..n - 1];
      if id == x {
        MergeIdempotent(registry[x], x, entries);
      }
    } else if ids != [] && !Named(entries, ids[0]) {
      InjectPassSpec(registry, ids[1..], entries, id);
      var n := Reached(registry, ids, entries);
      assert ids[..n] == [ids[0]] + ids[1..][..n - 1];
    }
  }

  /** How far a pass gets depends only on which experiments exist and which ids the staged entries name. */
  lemma {:induction false} ReachedSameKeys(a: Registry, b: Registry, ids: seq<string>, entries: seq<SciResult>)
    requires a.Keys == b.Keys
    ensures Reached(a, ids, entries) == Reached(b, ids, entries)
    decreases |ids|
  {
    if ids != [] && !Throws(a, entries, ids[0]) {
      ReachedSameKeys(a, b, ids[1..], entries);
    }
  }

  /** No pass overwrites a result text an experiment already holds. */
  lemma NoOverwrite(registry: Registry, ids: seq<string>, entries: seq<SciResult>, id: string, biome: string)
    requires id in registry && biome in registry[id]
    ensures var r := InjectPass(registry, ids, entries).0;
            id in r && biome in r[id] && r[id][biome] == registry[id][biome]
  {
    InjectPassSpec(registry, ids, entries, id);
    MergeIntoSpec(registry[id], id, entries, biome);
  }

  /** Whatever a pass adds to an experiment's Results comes from a staged entry for that very experiment and biome. */
  lemma OnlyStagedAdded(registry: Registry, ids: seq<string>, entries: seq<SciResult>, id: string, biome: string)
    requires id in registry && biome !in registry[id]
    requires var r := InjectPass(registry, ids, entries).0; id in r && biome in r[id]
    ensures exists k | 0 <= k < |entries| :: entries[k].expid == id && entries[k].biome == biome
  {
    InjectPassSpec(registry, ids, entries, id);
    MergeIntoSpec(registry[id], id, entries, biome);
    var f := FirstResult(entries, id, biome);
    assert f.Some?;
    var k :| 0 <= k < |entries| && Matches(entries[k], id, biome) && entries[k].res == f.value
             && forall j | 0 <= j < k :: !Matches(entries[j], id, biome);
  }

  /** Running a pass a second time over its own outcome changes nothing. */
  lemma PassIdempotent(registry: Registry, ids: seq<string>, entries: seq<SciResult>)
    ensures var r := InjectPass(registry, ids, entries).0;
            InjectPass(r, ids, entries).0 == r
  {
    var r := InjectPass(registry, ids, entries).0;
    var r2 := InjectPass(r, ids, entries).0;
    InjectPassSpec(registry, ids, entries, "");
    ReachedSameKeys(r, registry, ids, entries);
    InjectPassSpec(r, ids, entries, "");
    forall id | id in registry ensures r2[id] == r[id] {
      InjectPassSpec(registry, ids, entries, id);
      InjectPassSpec(r, ids, entries, id);
      if id in ids[..Reached(registry, ids, entries)] {
        MergeIdempotent(registry[id], id, entries);
      }
    }
  }

  /** A missing experiment that no staged entry names is passed over: the pass goes on, merges "b" and completes. */
  lemma MissingUnnamedSkipped()
    ensures InjectPass(map["b" := map[]], ["a", "b"], [SciResult("b", "H", "x")]) == (map["b" := map["H" := "x"]], true)
  {
    var entries := [SciResult("b", "H", "x")];
    assert !Named(entries, "a") by {
      assert entries[0].expid != "a";
    }
    assert MergeInto(map[], "b", entries) == map["H" := "x"] by {
      assert entries[1..] == [];
    }
    var registry: Registry := map["b" := map[]];
    assert InjectPass(registry, ["a", "b"], entries) == InjectPass(registry, ["b"], entries) by {
      assert ["a", "b"][1..] == ["b"];
    }
    assert InjectPass(registry, ["b"], entries) == InjectPass(map["b" := map["H" := "x"]], [], entries) by {
      assert ["b"][1..] == [] && "b" in registry && registry["b"] == map[];
      assert registry["b" := MergeInto(registry["b"], "b", entries)] == map["b" := map["H" := "x"]];
    }
  }

  /** A missing experiment that a staged entry names ends the pass: "b" is left unmerged and the pass does not complete. */
  lemma MissingNamedThrows()
    ensures InjectPass(map["b" := map[]], ["a", "b"], [SciResult("a", "H", "x"), SciResult("b", "H", "x")]) == (map["b" := map[]], false)
  {
    var entries := [SciResult("a", "H", "x"), SciResult("b", "H", "x")];
    assert Named(entries, "a") by {
      assert entries[0].expid == "a";
    }
  }

  /** What the registry offers in one frame: whether GetExperimentIDs answers, and the ids it lists. */
  datatype Frame = Frame(available: bool, ids: seq<string>)

  /** The latch and the registry between frames. */
  datatype InjectState = InjectState(injected: bool, registry: Registry)

  /** rdInject: an unavailable registry throws at once; otherwise one pass, latching on completion. */
  function Inject(s: InjectState, f: Frame, entries: seq<SciResult>): (r: InjectState)
    ensures r.registry.Keys == s.registry.Keys
    ensures !f.available ==> r == s
    ensures s.injected ==> r.injected
  {
    if !f.available then s
    else
      var (r, ok) := InjectPass(s.registry, f.ids, entries);
      InjectState(s.injected || ok, r)
  }

  /** Update: rdInject runs only while the latch is open. */
  function Tick(s: InjectState, f: Frame, entries: seq<SciResult>): (r: InjectState)
    ensures s.injected ==> r == s
    ensures r.registry.Keys == s.registry.Keys
  {
    if s.injected then s else Inject(s, f, entries)
  }

  /** A sequence of frames. */
  function Run(s: InjectState, frames: seq<Frame>, entries: seq<SciResult>): (r: InjectState)
    ensures r.registry.Keys == s.registry.Keys
    ensures s.injected ==> r.injected
    decreases |frames|
  {
    if frames == [] then s else Run(Tick(s, frames[0], entries), frames[1..], entries)
  }

  /**
   * A frame whose pass completes: the registry answers, and every id it lists has an
   * experiment or is named by no staged entry.
   */
  predicate Completes(f: Frame, keys: set<string>, entries: seq<SciResult>) {
    f.available && forall k | 0 <= k < |f.ids| :: f.ids[k] in keys || !Named(entries, f.ids[k])
  }

  /** Once latched, no later frame changes anything. */
  lemma {:induction false} LatchHolds(s: InjectState, frames: seq<Frame>, entries: seq<SciResult>)
    requires s.injected
    ensures Run(s, frames, entries) == s
    decreases |frames|
  {
    if frames != [] {
      LatchHolds(s, frames[1..], entries);
    }
  }

  /** One frame keeps the experiment ids, and latches exactly when it was latched or its pass completes. */
  lemma TickSpec(s: InjectState, f: Frame, entries: seq<SciResult>)
    ensures var t := Tick(s, f, entries);
            t.registry.Keys == s.registry.Keys && (t.injected <==> s.injected || Completes(f, s.registry.Keys, entries))
  {
    InjectPassSpec(s.registry, f.ids, entries, "");
    var n := Reached(s.registry, f.ids, entries);
    if f.available && n < |f.ids| {
      assert !(f.ids[n] in s.registry.Keys || !Named(entries, f.ids[n]));
    }
  }

  /**
   * Over any run of frames the set of experiments stays the same, and the latch is
   * closed at the end exactly when it was at the start or some frame's pass completed.
   */
  lemma {:induction false} RunLatches(s: InjectState, frames: seq<Frame>, entries: seq<SciResult>)
    ensures var t := Run(s, frames, entries);
            && t.registry.Keys == s.registry.Keys
            && (t.injected <==> s.injected || exists k | 0 <= k < |frames| :: Completes(frames[k], s.registry.Keys, entries))
    decreases |frames|
  {
    if frames != [] {
      var s' := Tick(s, frames[0], entries);
      TickSpec(s, frames[0], entries);
      RunLatches(s', frames[1..], entries);
      assert forall k | 0 < k < |frames| :: frames[k] == frames[1..][k - 1];
      if exists k | 0 < k < |frames| :: Completes(frames[k], s.registry.Keys, entries) {
        var k :| 0 < k < |frames| && Completes(frames[k], s.registry.Keys, entries);
        assert Completes(frames[1..][k - 1], s'.registry.Keys, entries);
      }
      if exists k | 0 <= k < |frames[1..]| :: Completes(frames[1..][k], s'.registry.Keys, entries) {
        var k :| 0 <= k < |frames[1..]| && Completes(frames[1..][k], s'.registry.Keys, entries);
        assert Completes(frames[k + 1], s.registry.Keys, entries);
      }
    }
  }
}
