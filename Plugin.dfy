/**
 * The CustomBiomes add-on object: the state it keeps between frames and the
 * operations that change it. ReplaceBiomes loads a biome set onto every body,
 * readResults stages science results, rdInject/Update hand them to the R&D
 * registry once, the start-up loop assigns each save its default set, and the
 * biome list steps through the bodies.
 */
module Plugin {
  import opened Wrappers
  import opened Strings
  import opened AttributeFile
  import opened ScienceResults
  import opened ScienceInjection
  import opened DefaultSets
  import opened BiomeCycling

  /** A planet or moon: its name and its biome map, null when it has none. */
  class CelestialBody {
    const name: string
    const biomeMap: BiomeMap?

    constructor (name: string, biomeMap: BiomeMap?)
      ensures this.name == name && this.biomeMap == biomeMap
    {
      this.name := name;
      this.biomeMap := biomeMap;
    }
  }

  /** ResearchAndDevelopment as rdInject sees it: whether GetExperimentIDs answers, the ids it lists, and each experiment's Results. */
  class ResearchAndDevelopment {
    var available: bool
    var ids: seq<string>
    var experiments: Registry

    constructor (available: bool, ids: seq<string>, experiments: Registry)
      ensures this.available == available && this.ids == ids && this.experiments == experiments
    {
      this.available := available;
      this.ids := ids;
      this.experiments := experiments;
    }
  }

  /** Where the biome sets live, under the install folder. */
  const SetsRoot := "GameData/CustomBiomes/PluginData/CustomBiomes/"

  /** The folder of a biome set under the install folder `app`; the separator is '/' (Path.AltDirectorySeparatorChar). */
  function SetFolder(app: string, biomeSet: string): (folder: string)
    ensures |folder| == |app| + |SetsRoot| + |biomeSet| + 1
    ensures folder[..|app|] == app && folder[|app|..|app| + |SetsRoot|] == SetsRoot
    ensures folder[|app| + |SetsRoot|..|folder| - 1] == biomeSet && folder[|folder| - 1] == '/'
  {
    app + SetsRoot + biomeSet + "/"
  }

  /** Different sets are read from different folders. */
  lemma SetFolderDistinct(app: string, a: string, b: string)
    requires a != b
    ensures SetFolder(app, a) != SetFolder(app, b)
  {
    var k := |app| + |SetsRoot|;
    var fa, fb := SetFolder(app, a), SetFolder(app, b);
    assert fa[k..|fa| - 1] == a;
    assert fb[k..|fb| - 1] == b;
  }

  /** Opening a file: its content, or None where FileStream throws. */
  function Open(disk: map<string, File>, path: string): Option<File> {
    if path in disk then Some(disk[path]) else None
  }

  /** The texture attempt and then the attribute attempt for one body, each of which may fail on its own. */
  function BodyStep(s: BiomeState, name: string, folder: string, disk: map<string, File>,
                    parse: string -> Option<real>, createMap: seq<bv8> -> Option<Raster>): (r: BiomeState)
    ensures folder + name + ".png" !in disk ==> r.raster == s.raster
    ensures folder + name + ".att" !in disk ==> r == s.(raster := r.raster)
  {
    ApplyAttributeFile(ApplyTexture(s, Open(disk, folder + name + ".png"), createMap), Open(disk, folder + name + ".att"), parse)
  }

  /** The state the biome map `m` ends in after the loop over `bodies`: the steps of every body whose map it is, in order. */
  function StepsFor(s: BiomeState, m: BiomeMap, bodies: seq<CelestialBody>, folder: string, disk: map<string, File>,
                    parse: string -> Option<real>, createMap: seq<bv8> -> Option<Raster>): BiomeState
    decreases |bodies|
  {
    if bodies == [] then s
    else
      var s' := if bodies[0].biomeMap == m then BodyStep(s, bodies[0].name, folder, disk, parse, createMap) else s;
      StepsFor(s', m, bodies[1..], folder, disk, parse, createMap)
  }

  /** A map no body carries is left alone. */
  lemma {:induction false} StepsForUntouched(s: BiomeState, m: BiomeMap, bodies: seq<CelestialBody>, folder: string,
                                             disk: map<string, File>, parse: string -> Option<real>,
                                             createMap: seq<bv8> -> Option<Raster>)
    requires forall k | 0 <= k < |bodies| :: bodies[k].biomeMap != m
    ensures StepsFor(s, m, bodies, folder, disk, parse, createMap) == s
    decreases |bodies|
  {
    if bodies != [] {
      StepsForUntouched(s, m, bodies[1..], folder, disk, parse, createMap);
    }
  }

  /**
   * Per-body isolation: a map carried by exactly one body ends in that body's own texture
   * and attribute steps, whatever happens to every other body.
   */
  lemma {:induction false} StepsForSingle(s: BiomeState, m: BiomeMap, bodies: seq<CelestialBody>, k: nat, folder: string,
                                          disk: map<string, File>, parse: string -> Option<real>,
                                          createMap: seq<bv8> -> Option<Raster>)
    requires k < |bodies| && bodies[k].biomeMap == m
    requires forall j | 0 <= j < |bodies| && j != k :: bodies[j].biomeMap != m
    ensures StepsFor(s, m, bodies, folder, disk, parse, createMap) == BodyStep(s, bodies[k].name, folder, disk, parse, createMap)
    decreases |bodies|
  {
    if k == 0 {
      StepsForUntouched(BodyStep(s, bodies[0].name, folder, disk, parse, createMap), m, bodies[1..], folder, disk, parse, createMap);
    } else {
      StepsForSingle(s, m, bodies[1..], k - 1, folder, disk, parse, createMap);
    }
  }

  /** The loop over the bodies from position i on: body i's steps, if it carries `m`, then the rest. */
  lemma StepsForNext(s: BiomeState, m: BiomeMap, bodies: seq<CelestialBody>, i: nat, folder: string,
                     disk: map<string, File>, parse: string -> Option<real>, createMap: seq<bv8> -> Option<Raster>)
    requires i < |bodies|
    ensures StepsFor(s, m, bodies[i..], folder, disk, parse, createMap)
            == StepsFor(if bodies[i].biomeMap == m then BodyStep(s, bodies[i].name, folder, disk, parse, createMap) else s,
                        m, bodies[i + 1..], folder, disk, parse, createMap)
  {
    assert bodies[i..][0] == bodies[i] && bodies[i..][1..] == bodies[i + 1..];
  }

  /** Reading line `pos` of the file: what it does to the staged entries of the lines from `pos` on. */
  lemma ReadStep(lines: seq<string>, pos: nat, expid: string)
    requires pos < |lines|
    ensures var line, r := lines[pos], ParseResults(lines[pos + 1..], expid).entries;
            if IsIdLine(line) then ParseResults(lines[pos..], expid) == ParseResults(lines[pos + 1..], IdOf(line))
            else if EntryOf(expid, line).None? then ParseResults(lines[pos..], expid).entries == []
            else ParseResults(lines[pos..], expid).entries == [EntryOf(expid, line).value] + r
  {
    assert lines[pos..] == [lines[pos]] + lines[pos + 1..];
    if IsIdLine(lines[pos]) {
      ParseIdLine(lines[pos], lines[pos + 1..], expid);
    } else if EntryOf(expid, lines[pos]).Some? {
      ParseEntryLine(lines[pos], lines[pos + 1..], expid);
    }
  }

  /** Concatenation regrouped. */
  lemma AppendAssoc<T>(a: seq<T>, b: seq<T>, c: seq<T>)
    ensures (a + b) + c == a + (b + c)
  {
  }

  /** The two try blocks for one body: the texture attempt, then the attribute attempt, each failing on its own. */
  method LoadBody(biome: BiomeMap?, name: string, folder: string, disk: map<string, File>,
                  parse: string -> Option<real>, createMap: seq<bv8> -> Option<Raster>)
    modifies biome
    ensures biome != null ==> biome.State() == BodyStep(old(biome.State()), name, folder, disk, parse, createMap)
  {
    var textureLoaded := LoadTexture(biome, Open(disk, folder + name + ".png"), createMap);
    var attributesLoaded := LoadAttributes(biome, Open(disk, folder + name + ".att"), parse);
  }

  /** The biome maps of the bodies. */
  function MapsOf(bodies: seq<CelestialBody>): set<BiomeMap> {
    set k | 0 <= k < |bodies| && bodies[k].biomeMap != null :: bodies[k].biomeMap
  }

  /** The body names, in order. */
  function Names(bodies: seq<CelestialBody>): (names: seq<string>)
    ensures |names| == |bodies| && forall k | 0 <= k < |bodies| :: names[k] == bodies[k].name
  {
    seq(|bodies|, k requires 0 <= k < |bodies| => bodies[k].name)
  }

  /** What reading the set's ScienceResults.txt stages: nothing when the file is missing. */
  function StagedResults(disk: map<string, File>, folder: string): seq<SciResult> {
    match Open(disk, folder + "ScienceResults.txt")
    case None => []
    case Some(f) => ParseResults(f.lines, "").entries
  }

  /** The inner loop of the start-up default-set search: the set of the first entry whose save part is `save`. */
  method FirstDefault(entries: seq<string>, save: string) returns (found: bool, biomeSet: string)
    ensures found <==> exists j | 0 <= j < |entries| :: SplitPair(entries[j]).0 == save
    ensures found ==> FindSet(entries, save) == Some(biomeSet)
  {
    found := false;
    biomeSet := "";
    var j := 0;
    while j < |entries|
      invariant 0 <= j <= |entries|
      invariant FindSet(entries[j..], save) == FindSet(entries, save)
    {
      var pair := SplitPair(entries[j]);
      assert entries[j..][0] == entries[j] && entries[j..][1..] == entries[j + 1..];
      if pair.0 == save {
        found := true;
        biomeSet := pair.1;
        return;
      }
      j := j + 1;
    }
  }

  /** One save's turn in the start-up loop: the set of its first entry in `ds`, or "Basic". */
  method ChooseDefault(ds: Option<seq<string>>, save: string, ghost defaultSets: string) returns (biomeSet: string)
    requires ds == Entries(defaultSets)
    ensures biomeSet == DefaultFor(save, defaultSets)
  {
    biomeSet := BasicSet;
    if ds.Some? {
      var found, d := FirstDefault(ds.value, save);
      if found {
        biomeSet := d;
      }
    }
  }

  /** One turn of the foreach over the bodies: body i's two attempts, as the loop from i on sees them. */
  method LoadAt(bodies: seq<CelestialBody>, i: nat, folder: string, disk: map<string, File>,
                parse: string -> Option<real>, createMap: seq<bv8> -> Option<Raster>)
    requires i < |bodies|
    modifies MapsOf(bodies)
    ensures forall m | m in MapsOf(bodies) ::
              StepsFor(m.State(), m, bodies[i + 1..], folder, disk, parse, createMap)
              == StepsFor(old(m.State()), m, bodies[i..], folder, disk, parse, createMap)
  {
    var body := bodies[i];
    ghost var before := map m | m in MapsOf(bodies) :: m.State();
    LoadBody(body.biomeMap, body.name, folder, disk, parse, createMap);
    forall m | m in MapsOf(bodies)
      ensures StepsFor(m.State(), m, bodies[i + 1..], folder, disk, parse, createMap)
              == StepsFor(before[m], m, bodies[i..], folder, disk, parse, createMap)
    {
      StepsForNext(before[m], m, bodies, i, folder, disk, parse, createMap);
    }
  }

  /** The foreach over FlightGlobals.Bodies: record each name into `names`, then give the body its two attempts. */
  method LoadBodies(names: array<string>, bodies: seq<CelestialBody>, folder: string, disk: map<string, File>,
                    parse: string -> Option<real>, createMap: seq<bv8> -> Option<Raster>)
    requires names.Length == |bodies|
    modifies names, MapsOf(bodies)
    ensures names[..] == Names(bodies)
    ensures forall m | m in MapsOf(bodies) ::
              m.State() == StepsFor(old(m.State()), m, bodies, folder, disk, parse, createMap)
  {
    var i := 0;
    while i < |bodies|
      invariant 0 <= i <= |bodies|
      invariant forall k | 0 <= k < i :: names[k] == bodies[k].name
      invariant forall m | m in MapsOf(bodies) ::
                  StepsFor(m.State(), m, bodies[i..], folder, disk, parse, createMap)
                  == StepsFor(old(m.State()), m, bodies, folder, disk, parse, createMap)
    {
      names[i] := bodies[i].name;
      LoadAt(bodies, i, folder, disk, parse, createMap);
      i := i + 1;
    }
    assert names[..] == Names(bodies);
  }

  class CustomBiomes {
    /** _biomes: the body names, in the order of FlightGlobals.Bodies. */
    var biomes: array<string>
    /** _replaced */
    var replaced: bool
    /** _resultList: science results staged for injection. */
    var resultList: seq<SciResult>
    /** rdInjected */
    var rdInjected: bool
    /** _saveDictionary, in insertion order. */
    var saveDictionary: seq<(string, string)>
    /** _defaultSets: the persisted "save|set;" string. */
    var defaultSets: string
    /** _currentBiome: the index into _biomes the biome list shows. */
    var currentBiome: int

    /** A fresh add-on object with its persisted default-set string. */
    constructor (defaultSets: string)
      ensures this.defaultSets == defaultSets && !replaced && !rdInjected
      ensures biomes.Length == 0 && resultList == [] && saveDictionary == [] && currentBiome == 0
    {
      biomes := new string[0];
      replaced := false;
      resultList := [];
      rdInjected := false;
      saveDictionary := [];
      this.defaultSets := defaultSets;
      currentBiome := 0;
    }

    /**
     * ReplaceBiomes(set): records every body name, gives every body a texture attempt and an
     * attribute attempt from the set's folder under `app`, then stages the set's science results.
     */
    method ReplaceBiomes(biomeSet: string, app: string, bodies: seq<CelestialBody>, disk: map<string, File>,
                         parse: string -> Option<real>, createMap: seq<bv8> -> Option<Raster>)
      modifies this`replaced, this`biomes, this`resultList, MapsOf(bodies)
      ensures replaced
      ensures fresh(biomes) && biomes[..] == Names(bodies)
      ensures forall m | m in MapsOf(bodies) ::
                m.State() == StepsFor(old(m.State()), m, bodies, SetFolder(app, biomeSet), disk, parse, createMap)
      ensures resultList == old(resultList) + StagedResults(disk, SetFolder(app, biomeSet))
    {
      replaced := true;
      biomes := new string[|bodies|];
      var folder := SetFolder(app, biomeSet);
      LoadBodies(biomes, bodies, folder, disk, parse, createMap);
      var results := Open(disk, folder + "ScienceResults.txt");
      if results.Some? {
        ReadResults(results.value.lines);
      }
    }

    /** readResults: stages the file's lines in order, stopping at the first line that throws. */
    method ReadResults(lines: seq<string>)
      modifies this`resultList
      ensures resultList == old(resultList) + ParseResults(lines, "").entries
    {
      var expid := "";
      var pos := 0;
      while pos < |lines|
        invariant 0 <= pos <= |lines|
        invariant old(resultList) + ParseResults(lines, "").entries == resultList + ParseResults(lines[pos..], expid).entries
      {
        ReadStep(lines, pos, expid);
        ghost var rest := ParseResults(lines[pos + 1..], expid).entries;
        ghost var before, current := resultList, expid;
        var ok;
        ok, expid := ReadLine(lines[pos], expid);
        if !ok {
          return;
        }
        if !IsIdLine(lines[pos]) {
          ghost var e := EntryOf(current, lines[pos]).value;
          assert resultList == before + [e];
          AppendAssoc(before, [e], rest);
        }
        pos := pos + 1;
      }
    }

    /** One pass of readResults' loop body: an id line switches the current id, any other line stages its entry or throws. */
    method ReadLine(buff: string, expid: string) returns (ok: bool, next: string)
      modifies this`resultList
      ensures IsIdLine(buff) ==> ok && next == IdOf(buff) && resultList == old(resultList)
      ensures !IsIdLine(buff) ==> next == expid && (ok <==> EntryOf(expid, buff).Some?)
      ensures !IsIdLine(buff) && ok ==> resultList == old(resultList) + [EntryOf(expid, buff).value]
      ensures !ok ==> resultList == old(resultList)
    {
      ok, next := true, expid;
      if IsIdLine(buff) {
        next := IdOf(buff);
      } else {
        var entry := EntryOf(expid, buff);
        if entry.None? {
          ok := false;
          return;
        }
        resultList := resultList + [entry.value];
      }
    }

    /**
     * rdInject: for every experiment id the registry lists, merge the staged results into that
     * experiment's Results without overwriting; latch rdInjected once the whole pass is done.
     * An id without an experiment throws only when a staged entry names it, since the test on
     * res.expid comes first in the && of line 305.
     */
    method RdInject(rd: ResearchAndDevelopment)
      modifies this`rdInjected, rd`experiments
      ensures Inject(InjectState(old(rdInjected), old(rd.experiments)), Frame(rd.available, rd.ids), resultList)
              == InjectState(rdInjected, rd.experiments)
    {
      if !rd.available {
        return;
      }
      var ids := rd.ids;
      var i := 0;
      while i < |ids|
        invariant 0 <= i <= |ids|
        invariant InjectPass(old(rd.experiments), ids, resultList) == InjectPass(rd.experiments, ids[i..], resultList)
        invariant rdInjected == old(rdInjected)
      {
        assert ids[i..][0] == ids[i] && ids[i..][1..] == ids[i + 1..];
        var thrown := MergeStaged(rd, ids[i]);
        if thrown {
          return;
        }
        i := i + 1;
      }
      rdInjected := true;
    }

    /**
     * The inner foreach of rdInject for experiment `id`: each staged entry for `id` whose biome
     * is absent is added. Without an experiment, the first staged entry for `id` throws.
     */
    method MergeStaged(rd: ResearchAndDevelopment, id: string) returns (thrown: bool)
      modifies rd`experiments
      ensures id !in old(rd.experiments) ==> (thrown <==> Named(resultList, id)) && rd.experiments == old(rd.experiments)
      ensures id in old(rd.experiments) ==>
                !thrown && rd.experiments == old(rd.experiments)[id := MergeInto(old(rd.experiments)[id], id, resultList)]
    {
      thrown := false;
      ghost var outer := rd.experiments;
      var j := 0;
      while j < |resultList|
        invariant 0 <= j <= |resultList|
        invariant id !in outer ==> rd.experiments == outer && forall k | 0 <= k < j :: resultList[k].expid != id
        invariant id in outer ==> id in rd.experiments && rd.experiments == outer[id := rd.experiments[id]]
                                  && MergeInto(outer[id], id, resultList) == MergeInto(rd.experiments[id], id, resultList[j..])
      {
        var res := resultList[j];
        assert resultList[j..][0] == res && resultList[j..][1..] == resultList[j + 1..];
        if res.expid == id {
          if id !in rd.experiments {
            // exp is null: exp.Results throws
            thrown := true;
            return;
          }
          if res.biome !in rd.experiments[id] {
            rd.experiments := rd.experiments[id := rd.experiments[id][res.biome := res.res]];
          }
        }
        j := j + 1;
      }
    }

    /** Update, once per frame: rdInject runs only until it has completed once. */
    method Update(rd: ResearchAndDevelopment)
      modifies this`rdInjected, rd`experiments
      ensures old(rdInjected) ==> rdInjected && rd.experiments == old(rd.experiments)
      ensures Tick(InjectState(old(rdInjected), old(rd.experiments)), Frame(rd.available, rd.ids), resultList)
              == InjectState(rdInjected, rd.experiments)
    {
      if !rdInjected {
        RdInject(rd);
      }
    }

    /**
     * The start-up default-set loop: each save is recorded with the set of the first
     * "save|set" entry naming it, or "Basic"; the staged results are cleared; the persisted
     * string is rebuilt. The result is the set ReplaceBiomes is then called with for
     * `currentSave`, if it is one of the saves and no set has been loaded yet.
     */
    method AssignDefaultSets(saves: seq<string>, currentSave: string) returns (startSet: Option<string>)
      requires forall i, j | 0 <= i < j < |saves| :: saves[i] != saves[j]
      modifies this`saveDictionary, this`resultList, this`defaultSets
      ensures saveDictionary == Assignments(saves, old(defaultSets))
      ensures resultList == []
      ensures defaultSets == Render(saveDictionary)
      ensures startSet == if currentSave in saves && !replaced then Some(DefaultFor(currentSave, old(defaultSets))) else None
    {
      var ds := Entries(defaultSets);
      saveDictionary := [];
      resultList := [];
      startSet := None;
      var i := 0;
      while i < |saves|
        invariant 0 <= i <= |saves|
        invariant defaultSets == old(defaultSets)
        invariant saveDictionary == Assignments(saves[..i], defaultSets) && resultList == []
        invariant startSet == if currentSave in saves[..i] && !replaced then Some(DefaultFor(currentSave, defaultSets)) else None
      {
        var save := saves[i];
        var biomeSet := ChooseDefault(ds, save, defaultSets);
        saveDictionary := saveDictionary + [(save, biomeSet)];
        assert saves[..i + 1] == saves[..i] + [save];
        if save == currentSave && !replaced {
          LookupAssigned(saves[..i + 1], defaultSets, save);
          var found := Lookup(saveDictionary, save);
          startSet := Some(if found.Some? then found.value else BasicSet);
        }
        i := i + 1;
      }
      assert saves[..i] == saves;
      defaultSets := BuildDefaultsString();
    }

    /** buildDefaultsString: "save|set;" for every recorded save, in order. */
    method BuildDefaultsString() returns (temp: string)
      ensures temp == Render(saveDictionary)
    {
      temp := "";
      var k := 0;
      while k < |saveDictionary|
        invariant 0 <= k <= |saveDictionary|
        invariant Render(saveDictionary) == temp + Render(saveDictionary[k..])
      {
        var pair := saveDictionary[k];
        var entry := pair.0 + "|" + pair.1 + ";";
        assert saveDictionary[k..][0] == pair && saveDictionary[k..][1..] == saveDictionary[k + 1..];
        AppendAssoc(temp, entry, Render(saveDictionary[k + 1..]));
        temp := temp + entry;
        k := k + 1;
      }
    }

    /** The "<<" button. */
    method PreviousBiome()
      modifies this`currentBiome
      ensures currentBiome == Prev(old(currentBiome), biomes.Length)
    {
      currentBiome := currentBiome - 1;
      if currentBiome < 0 {
        currentBiome := biomes.Length - 1;
      }
    }

    /** The ">>" button. */
    method NextBiome()
      modifies this`currentBiome
      ensures currentBiome == Next(old(currentBiome), biomes.Length)
    {
      currentBiome := currentBiome + 1;
      if currentBiome >= biomes.Length {
        currentBiome := 0;
      }
    }

    /** The sphere-of-influence check: show the first body called `name`, or keep the current index when none is. */
    method SelectBody(name: string)
      modifies this`currentBiome
      ensures name in biomes[..] ==> 0 <= currentBiome < biomes.Length && biomes[currentBiome] == name
                                      && name !in biomes[..currentBiome]
      ensures name !in biomes[..] ==> currentBiome == old(currentBiome)
    {
      var i := 0;
      while i < biomes.Length
        invariant 0 <= i <= biomes.Length
        invariant name !in biomes[..i]
        invariant currentBiome == old(currentBiome)
      {
        if biomes[i] == name {
          currentBiome := i;
          return;
        }
        assert biomes[..i + 1] == biomes[..i] + [biomes[i]];
        i := i + 1;
      }
      assert biomes[..i] == biomes[..];
    }
  }
}
