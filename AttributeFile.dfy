/**
 * The per-body biome map (CBAttributeMapSO) and the two ways ReplaceBiomes rewrites it:
 * the texture step (<body>.png) and the attribute step (<body>.att).
 *
 * An .att file is line-oriented: a threshold line, then 5-line groups
 * (name, alpha, red, green, blue). float.Parse is the parameter `parse`
 * (None: it throws); Texture2D.LoadImage followed by CreateMap is the
 * parameter `createMap` (None: it throws).
 */
module AttributeFile {
  import opened Wrappers

  /** UnityEngine.Color: red, green, blue, alpha. */
  datatype Color = Color(r: real, g: real, b: real, a: real)

  /** CBAttributeMapSO.MapAttribute as the attribute step fills it in. */
  datatype MapAttribute = MapAttribute(name: string, mapColor: Color, value: real)

  /** The raster a biome map holds after CreateMap. */
  datatype Raster = Raster(width: nat, height: nat, pixels: seq<Color>)

  /** A file as the two readers see it: BinaryReader's bytes and the successive results of StreamReader.ReadLine. */
  datatype File = File(bytes: seq<bv8>, lines: seq<string>)

  /** The value of a biome map that the two steps can change. */
  datatype BiomeState = BiomeState(exactSearch: bool, nonExactThreshold: real,
                                   attributes: seq<MapAttribute>, raster: Raster)

  /** A colour channel as read: values above 1 are on the 0..255 scale and are divided by 255. */
  function Normalize(v: real): (r: real)
    ensures 0.0 <= v <= 255.0 ==> 0.0 <= r <= 1.0
  {
    if v > 1.0 then v / 255.0 else v
  }

  lemma NormalizeChannel(v: real)
    ensures v <= 1.0 ==> Normalize(v) == v
    ensures v > 1.0 ==> Normalize(v) * 255.0 == v
    ensures 0.0 <= v <= 255.0 ==> 0.0 <= Normalize(v) <= 1.0 && Normalize(Normalize(v)) == Normalize(v)
  {
  }

  /** One 5-line group: the attribute it describes, or None when a numeric line does not parse. */
  function ParseGroup(group: seq<string>, parse: string -> Option<real>): (r: Option<MapAttribute>)
    requires |group| == 5
    ensures r.Some? <==> parse(group[1]).Some? && parse(group[2]).Some? && parse(group[3]).Some? && parse(group[4]).Some?
    ensures r.Some? ==> r.value.name == group[0] && r.value.value == r.value.mapColor.a
  {
    var a, r, g, b := parse(group[1]), parse(group[2]), parse(group[3]), parse(group[4]);
    if a.None? || r.None? || g.None? || b.None? then None
    else
      var alpha := Normalize(a.value);
      Some(MapAttribute(group[0], Color(Normalize(r.value), Normalize(g.value), Normalize(b.value), alpha), alpha))
  }

  /** The lines after the threshold: the attributes in file order, or None when any group is short or malformed. */
  function ParseGroups(body: seq<string>, parse: string -> Option<real>): (r: Option<seq<MapAttribute>>)
    ensures r.Some? ==> 5 * |r.value| == |body|
    decreases |body|
  {
    if body == [] then Some([])
    else if |body| < 5 then None
    else
      var att := ParseGroup(body[..5], parse);
      var rest := ParseGroups(body[5..], parse);
      if att.Some? && rest.Some? then Some([att.value] + rest.value) else None
  }

  /** The attributes already copied into the array, ahead of whatever the remaining groups give. */
  function Prepend(done: seq<MapAttribute>, rest: Option<seq<MapAttribute>>): Option<seq<MapAttribute>> {
    if rest.Some? then Some(done + rest.value) else None
  }

  /** Prepending in two steps is prepending the concatenation. */
  lemma PrependTwice(done: seq<MapAttribute>, more: seq<MapAttribute>, rest: Option<seq<MapAttribute>>)
    ensures Prepend(done, Prepend(more, rest)) == Prepend(done + more, rest)
  {
    if rest.Some? { assert done + (more + rest.value) == (done + more) + rest.value; }
  }

  /** The first line of the file: the threshold, or None when the file is empty or the line does not parse. */
  function ParseHeader(lines: seq<string>, parse: string -> Option<real>): Option<real> {
    if lines == [] then None else parse(lines[0])
  }

  /** The attribute step on a present biome map: the threshold line is applied as soon as it parses; the attributes only when every group parses. */
  function ApplyAttributeFile(s: BiomeState, file: Option<File>, parse: string -> Option<real>): (r: BiomeState)
    ensures r.raster == s.raster
  {
    if file.None? then s
    else
      var lines := file.value.lines;
      match ParseHeader(lines, parse)
      case None => s
      case Some(e) =>
        var s' := if e != 0.0 then s.(exactSearch := true, nonExactThreshold := e) else s.(exactSearch := false);
        match ParseGroups(lines[1..], parse)
        case Some(atts) => s'.(attributes := atts)
        case None => s'
  }

  /** The texture step on a present biome map. */
  function ApplyTexture(s: BiomeState, file: Option<File>, createMap: seq<bv8> -> Option<Raster>): (r: BiomeState)
    ensures r.(raster := s.raster) == s
    ensures file.Some? && createMap(file.value.bytes).Some? ==> r.raster == createMap(file.value.bytes).value
    ensures file.None? || createMap(file.value.bytes).None? ==> r == s
  {
    if file.Some? && createMap(file.value.bytes).Some? then s.(raster := createMap(file.value.bytes).value) else s
  }

  /** The attribute step runs to its end (no exception) exactly when this holds. */
  predicate AttributeFileParses(file: Option<File>, parse: string -> Option<real>) {
    file.Some? && ParseHeader(file.value.lines, parse).Some? && ParseGroups(file.value.lines[1..], parse).Some?
  }

  /** A group parses exactly when its four numeric lines parse. */
  predicate NumericLinesParse(body: seq<string>, parse: string -> Option<real>) {
    forall i | 0 <= i < |body| && i % 5 != 0 :: parse(body[i]).Some?
  }

  /** The attributes parse exactly when the lines form whole groups whose numeric lines all parse. */
  lemma {:induction false} ParseGroupsSucceeds(body: seq<string>, parse: string -> Option<real>)
    ensures ParseGroups(body, parse).Some? <==> |body| % 5 == 0 && NumericLinesParse(body, parse)
    decreases |body|
  {
    if |body| >= 5 {
      ParseGroupsSucceeds(body[5..], parse);
      assert NumericLinesParse(body, parse) <==>
        (forall i | 1 <= i < 5 :: parse(body[i]).Some?) && NumericLinesParse(body[5..], parse) by {
        if NumericLinesParse(body, parse) {
          forall i | 0 <= i < |body[5..]| && i % 5 != 0 ensures parse(body[5..][i]).Some? {
            assert body[5..][i] == body[i + 5];
          }
        }
        if (forall i | 1 <= i < 5 :: parse(body[i]).Some?) && NumericLinesParse(body[5..], parse) {
          forall i | 0 <= i < |body| && i % 5 != 0 ensures parse(body[i]).Some? {
            if i >= 5 { assert body[i] == body[5..][i - 5]; }
          }
        }
      }
    } else if body != [] {
      assert |body| % 5 != 0;
    }
  }

  /** Attribute g comes from lines 5g .. 5g+4 of the body: name, alpha, red, green, blue. */
  predicate DescribesGroup(att: MapAttribute, body: seq<string>, g: nat, parse: string -> Option<real>)
    requires 5 * g + 5 <= |body|
  {
    var a, r, gr, b := parse(body[5 * g + 1]), parse(body[5 * g + 2]), parse(body[5 * g + 3]), parse(body[5 * g + 4]);
    && a.Some? && r.Some? && gr.Some? && b.Some?
    && att.name == body[5 * g]
    && att.mapColor == Color(Normalize(r.value), Normalize(gr.value), Normalize(b.value), Normalize(a.value))
    && att.value == att.mapColor.a
  }

  /** One attribute per group, in file order; each normalised channel as read, and `value` equal to the normalised alpha. */
  lemma {:induction false} ParseGroupsContents(body: seq<string>, parse: string -> Option<real>)
    requires ParseGroups(body, parse).Some?
    ensures var atts := ParseGroups(body, parse).value;
            5 * |atts| == |body| &&
            forall g | 0 <= g < |atts| :: DescribesGroup(atts[g], body, g, parse)
    decreases |body|
  {
    if body != [] {
      var atts := ParseGroups(body, parse).value;
      ParseGroupsContents(body[5..], parse);
      assert body[..5][1] == body[1] && body[..5][2] == body[2] && body[..5][3] == body[3] && body[..5][4] == body[4];
      forall g | 0 < g < |atts| ensures DescribesGroup(atts[g], body, g, parse) {
        assert atts[g] == atts[1..][g - 1];
        DescribesShift(atts[g], body, g, parse);
      }
    }
  }

  /** Group g of the body is group g - 1 of the body without its first group. */
  lemma DescribesShift(att: MapAttribute, body: seq<string>, g: nat, parse: string -> Option<real>)
    requires 0 < g && 5 * g + 5 <= |body|
    ensures DescribesGroup(att, body[5..], g - 1, parse) <==> DescribesGroup(att, body, g, parse)
  {
    var rest := body[5..];
    assert rest[5 * (g - 1)] == body[5 * g] && rest[5 * (g - 1) + 1] == body[5 * g + 1];
    assert rest[5 * (g - 1) + 2] == body[5 * g + 2] && rest[5 * (g - 1) + 3] == body[5 * g + 3];
    assert rest[5 * (g - 1) + 4] == body[5 * g + 4];
  }

  /** The threshold line: a non-zero threshold turns exact search on and is stored; zero turns it off and leaves the stored threshold. An unreadable first line changes nothing. */
  lemma ThresholdLine(s: BiomeState, lines: seq<string>, parse: string -> Option<real>)
    ensures var t := ApplyAttributeFile(s, Some(File([], lines)), parse);
            match ParseHeader(lines, parse)
            case None => t == s
            case Some(e) =>
              && t.exactSearch == (e != 0.0)
              && t.nonExactThreshold == (if e != 0.0 then e else s.nonExactThreshold)
              && t.raster == s.raster
  {
  }

  /** The attribute list is replaced whole or not at all: it is either the old list or exactly the parsed groups, and it is the parsed groups exactly when the whole file parses. */
  lemma {:induction false} AttributesAllOrNothing(s: BiomeState, file: Option<File>, parse: string -> Option<real>)
    ensures var t := ApplyAttributeFile(s, file, parse);
            && (AttributeFileParses(file, parse) ==>
                  t.attributes == ParseGroups(file.value.lines[1..], parse).value
                  && 5 * |t.attributes| + 1 == |file.value.lines|)
            && (!AttributeFileParses(file, parse) ==> t.attributes == s.attributes)
  {
    if AttributeFileParses(file, parse) {
      ParseGroupsContents(file.value.lines[1..], parse);
    }
  }

  /** A malformed group still leaves the threshold line applied (it is written before the groups are read). */
  lemma MalformedGroupKeepsThreshold(s: BiomeState, file: Option<File>, parse: string -> Option<real>)
    requires file.Some? && ParseHeader(file.value.lines, parse).Some?
    requires ParseGroups(file.value.lines[1..], parse).None?
    ensures var e := ParseHeader(file.value.lines, parse).value;
            ApplyAttributeFile(s, file, parse) ==
              if e != 0.0 then s.(exactSearch := true, nonExactThreshold := e) else s.(exactSearch := false)
  {
  }

  /** A missing file changes nothing in either step; the texture step changes only the raster, the attribute step never the raster. */
  lemma StepsAreIndependent(s: BiomeState, png: Option<File>, att: Option<File>,
                            parse: string -> Option<real>, createMap: seq<bv8> -> Option<Raster>)
    ensures ApplyAttributeFile(s, None, parse) == s && ApplyTexture(s, None, createMap) == s
    ensures ApplyTexture(s, png, createMap).(raster := s.raster) == s
    ensures ApplyAttributeFile(s, att, parse).raster == s.raster
  {
  }

  /** The worked example: threshold 5.0, then Highlands given on the 0..255 scale and Lowlands on the 0..1 scale. */
  lemma {:induction false} ExampleFile(s: BiomeState, parse: string -> Option<real>)
    requires parse("5.0") == Some(5.0) && parse("200") == Some(200.0) && parse("10") == Some(10.0)
    requires parse("20") == Some(20.0) && parse("30") == Some(30.0) && parse("0.5") == Some(0.5)
    requires parse("0.1") == Some(0.1) && parse("0.2") == Some(0.2) && parse("0.3") == Some(0.3)
    ensures var t := ApplyAttributeFile(s, Some(File([], ["5.0", "Highlands", "200", "10", "20", "30",
                                                           "Lowlands", "0.5", "0.1", "0.2", "0.3"])), parse);
            && t.exactSearch && t.nonExactThreshold == 5.0
            && t.attributes == [MapAttribute("Highlands", Color(10.0 / 255.0, 20.0 / 255.0, 30.0 / 255.0, 200.0 / 255.0), 200.0 / 255.0),
                                MapAttribute("Lowlands", Color(0.1, 0.2, 0.3, 0.5), 0.5)]
  {
    var lines := ["5.0", "Highlands", "200", "10", "20", "30", "Lowlands", "0.5", "0.1", "0.2", "0.3"];
    var body := lines[1..];
    assert body[..5] == ["Highlands", "200", "10", "20", "30"];
    assert body[5..][..5] == ["Lowlands", "0.5", "0.1", "0.2", "0.3"];
    assert body[5..][5..] == [];
    var hi := MapAttribute("Highlands", Color(10.0 / 255.0, 20.0 / 255.0, 30.0 / 255.0, 200.0 / 255.0), 200.0 / 255.0);
    var lo := MapAttribute("Lowlands", Color(0.1, 0.2, 0.3, 0.5), 0.5);
    assert ParseGroup(body[..5], parse) == Some(hi);
    assert ParseGroup(body[5..][..5], parse) == Some(lo);
    var tail := body[5..];
    assert |tail| == 5 && tail[..5] == tail;
    assert ParseGroup(tail, parse) == Some(lo);
    assert ParseGroups(tail[5..], parse) == Some([]);
    assert [lo] + [] == [lo];
    assert ParseGroups(tail, parse) == Some([lo]);
    assert [hi] + [lo] == [hi, lo];
    assert ParseGroups(body, parse) == Some([hi, lo]);
  }

  /** CBAttributeMapSO: the fields ReplaceBiomes rewrites. */
  class BiomeMap {
    var exactSearch: bool
    var nonExactThreshold: real
    var attributes: array<MapAttribute>
    var raster: Raster

    function State(): BiomeState
      reads this, attributes
    {
      BiomeState(exactSearch, nonExactThreshold, attributes[..], raster)
    }
  }

  /** The try block around <body>.png. A null biome map throws at CreateMap and changes nothing. */
  method LoadTexture(biome: BiomeMap?, file: Option<File>, createMap: seq<bv8> -> Option<Raster>) returns (ok: bool)
    modifies biome
    ensures ok <==> biome != null && file.Some? && createMap(file.value.bytes).Some?
    ensures biome != null ==> biome.State() == ApplyTexture(old(biome.State()), file, createMap)
    ensures biome != null ==> biome.attributes == old(biome.attributes)
  {
    if file.None? {
      return false;
    }
    var tex := createMap(file.value.bytes);
    if tex.None? || biome == null {
      return false;
    }
    biome.raster := tex.value;
    return true;
  }

  /** The try block around <body>.att: the threshold line is applied first, then the groups are read, and the attribute array is assigned only once the whole file has parsed. */
  method LoadAttributes(biome: BiomeMap?, file: Option<File>, parse: string -> Option<real>) returns (ok: bool)
    modifies biome
    ensures ok <==> biome != null && AttributeFileParses(file, parse)
    ensures biome != null ==> biome.State() == ApplyAttributeFile(old(biome.State()), file, parse)
    ensures biome != null ==> biome.attributes == old(biome.attributes) || fresh(biome.attributes)
  {
    if file.None? {
      return false;
    }
    var lines := file.value.lines;
    if lines == [] {
      return false;
    }
    var e := parse(lines[0]);
    if e.None? || biome == null {
      return false;
    }
    if e.value != 0.0 {
      biome.nonExactThreshold := e.value;
      biome.exactSearch := true;
    } else {
      biome.exactSearch := false;
    }
    var attributes;
    ok, attributes := ReadGroups(lines, parse);
    if ok {
      biome.attributes := attributes;
    }
  }

  /** The `while (!reader.EndOfStream)` loop: reads 5-line groups after the threshold line, growing the array one slot at a time by copying the previous one. ok is false where the C# throws. */
  method ReadGroups(lines: seq<string>, parse: string -> Option<real>) returns (ok: bool, attributes: array<MapAttribute>)
    requires |lines| >= 1
    ensures fresh(attributes)
    ensures ok <==> ParseGroups(lines[1..], parse).Some?
    ensures ok ==> attributes[..] == ParseGroups(lines[1..], parse).value
  {
    attributes := new MapAttribute[0];
    var pos := 1;
    assert attributes[..] == [];
    assert ParseGroups(lines[1..], parse) == Prepend([], ParseGroups(lines[pos..], parse)) by {
      if ParseGroups(lines[1..], parse).Some? { assert [] + ParseGroups(lines[1..], parse).value == ParseGroups(lines[1..], parse).value; }
    }
    while pos < |lines|
      invariant 1 <= pos <= |lines|
      invariant fresh(attributes)
      invariant ParseGroups(lines[1..], parse) == Prepend(attributes[..], ParseGroups(lines[pos..], parse))
    {
      var locale := lines[pos];
      var previous := attributes;
      ghost var sofar := previous[..];
      attributes := new MapAttribute[previous.Length + 1];
      forall k | 0 <= k < previous.Length {
        attributes[k] := previous[k];
      }
      if pos + 4 >= |lines| {
        // ReadLine returns null past the end and float.Parse(null) throws
        assert ParseGroups(lines[pos..], parse).None?;
        return false, attributes;
      }
      var a := parse(lines[pos + 1]);
      var r := parse(lines[pos + 2]);
      var g := parse(lines[pos + 3]);
      var b := parse(lines[pos + 4]);
      assert lines[pos..][..5] == lines[pos..pos + 5];
      if a.None? || r.None? || g.None? || b.None? {
        assert ParseGroup(lines[pos..pos + 5], parse).None?;
        return false, attributes;
      }
      var alpha := Normalize(a.value);
      var att := MapAttribute(locale, Color(Normalize(r.value), Normalize(g.value), Normalize(b.value), alpha), alpha);
      attributes[attributes.Length - 1] := att;
      assert ParseGroup(lines[pos..pos + 5], parse) == Some(att);
      assert lines[pos..][5..] == lines[pos + 5..];
      assert ParseGroups(lines[pos..], parse) == Prepend([att], ParseGroups(lines[pos + 5..], parse));
      assert attributes[..] == sofar + [att];
      PrependTwice(sofar, [att], ParseGroups(lines[pos + 5..], parse));
      pos := pos + 5;
    }
    ok := true;
  }
}
