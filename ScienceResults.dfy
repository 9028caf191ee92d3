/**
 * ScienceResults.txt as readResults reads it: a line containing "id = " switches the
 * current experiment id; every other line is split on '=' and staged as
 * (experiment id, biome, result text). A line without '=' throws, keeping what was
 * staged before it.
 */
module ScienceResults {
  import opened Wrappers
  import opened Strings

  /** The sciresult struct. */
  datatype SciResult = SciResult(expid: string, biome: string, res: string)

  /** What a read of the file stages, and whether it reached the end without throwing. */
  datatype ResultsParse = ResultsParse(entries: seq<SciResult>, complete: bool)

  /** buff.Contains("id = ") */
  predicate IsIdLine(line: string) {
    Contains(line, "id = ")
  }

  /** An id line always has room for the two characters skipped after its first '='. */
  lemma IdLineHasEquals(line: string)
    requires IsIdLine(line)
    ensures 0 <= IndexOf(line, '=') && IndexOf(line, '=') + 2 <= |line|
  {
    var i :| OccursAt(line, "id = ", i);
    assert line[i + 3] == "id = "[3] == '=';
  }

  /** buff.Substring(buff.IndexOf('=') + 2): everything after the first '=' and one more character, untrimmed. */
  function IdOf(line: string): (id: string)
    requires IsIdLine(line)
    ensures |id| <= |line| - 2 && id == line[|line| - |id|..]
    ensures var k := |line| - |id| - 2; line[k] == '=' && '=' !in line[..k]
  {
    IdLineHasEquals(line);
    line[IndexOf(line, '=') + 2..]
  }

  /**
   * The entry a non-id line stages under `expid`: pieces 0 and 1 of buff.Split('='), trimmed,
   * that is the text before the first '=' and the text between it and the next '=' (or the
   * end); None where there is no '=' and splt[1] throws.
   */
  function EntryOf(expid: string, line: string): (r: Option<SciResult>)
    ensures r.None? <==> '=' !in line
  {
    var i := IndexOf(line, '=');
    if i < 0 then None
    else
      var rest := line[i + 1..];
      var j := IndexOf(rest, '=');
      Some(SciResult(expid, Trim(line[..i]), Trim(if j < 0 then rest else rest[..j])))
  }

  /** EntryOf takes exactly pieces 0 and 1 of the split on '=', when there are two. */
  lemma EntryOfSplit(expid: string, line: string)
    ensures var sp := Split(line, '=');
            EntryOf(expid, line) == if |sp| < 2 then None else Some(SciResult(expid, Trim(sp[0]), Trim(sp[1])))
  {
    var sp := Split(line, '=');
    var i := IndexOf(line, '=');
    if i >= 0 {
      var rest := line[i + 1..];
      var j := IndexOf(rest, '=');
      var piece := if j < 0 then rest else rest[..j];
      assert sp == [line[..i]] + Split(rest, '=');
      assert Split(rest, '=')[0] == piece;
      assert |sp| >= 2 && sp[0] == line[..i] && sp[1] == piece;
      assert EntryOf(expid, line) == Some(SciResult(expid, Trim(line[..i]), Trim(piece)));
    } else {
      assert sp == [line];
    }
  }

  /** The lines read with `expid` as the current id. */
  function ParseResults(lines: seq<string>, expid: string): (r: ResultsParse)
    ensures |r.entries| <= |lines|
    decreases |lines|
  {
    if lines == [] then ResultsParse([], true)
    else if IsIdLine(lines[0]) then ParseResults(lines[1..], IdOf(lines[0]))
    else
      var entry := EntryOf(expid, lines[0]);
      if entry.None? then ResultsParse([], false)
      else
        var rest := ParseResults(lines[1..], expid);
        ResultsParse([entry.value] + rest.entries, rest.complete)
  }

  /** The id in effect after reading the lines with `expid` as the current id. */
  function IdAfter(lines: seq<string>, expid: string): string
    decreases |lines|
  {
    if lines == [] then expid
    else IdAfter(lines[1..], if IsIdLine(lines[0]) then IdOf(lines[0]) else expid)
  }

  /** A line readResults gets past: an id line or a line holding '='. */
  predicate LineReads(line: string) {
    IsIdLine(line) || '=' in line
  }

  /** The read completes exactly when every line is an id line or holds '='. */
  lemma {:induction false} ParseResultsComplete(lines: seq<string>, expid: string)
    ensures ParseResults(lines, expid).complete <==> forall k | 0 <= k < |lines| :: LineReads(lines[k])
    decreases |lines|
  {
    if lines != [] {
      ParseResultsComplete(lines[1..], if IsIdLine(lines[0]) then IdOf(lines[0]) else expid);
      LinesReadCons(lines);
    }
  }

  /** Every line reads exactly when the first one does and every later one does. */
  lemma LinesReadCons(lines: seq<string>)
    requires lines != []
    ensures (forall k | 0 <= k < |lines| :: LineReads(lines[k]))
            <==> LineReads(lines[0]) && forall k | 0 <= k < |lines[1..]| :: LineReads(lines[1..][k])
  {
    if LineReads(lines[0]) && forall k | 0 <= k < |lines[1..]| :: LineReads(lines[1..][k]) {
      forall k | 0 < k < |lines| ensures LineReads(lines[k]) {
        assert lines[k] == lines[1..][k - 1];
      }
    }
  }

  /**
   * Reading is line by line: the lines after a prefix are read with the id the prefix
   * left current, and a prefix that throws stops the read there, keeping its entries.
   */
  lemma {:induction false} ParseResultsAppend(a: seq<string>, b: seq<string>, expid: string)
    ensures var pa := ParseResults(a, expid);
            ParseResults(a + b, expid) ==
              if pa.complete then
                var pb := ParseResults(b, IdAfter(a, expid));
                ResultsParse(pa.entries + pb.entries, pb.complete)
              else pa
    decreases |a|
  {
    if a == [] {
      assert a + b == b;
    } else {
      assert (a + b)[0] == a[0] && (a + b)[1..] == a[1..] + b;
      var next := if IsIdLine(a[0]) then IdOf(a[0]) else expid;
      ParseResultsAppend(a[1..], b, next);
      if !IsIdLine(a[0]) && EntryOf(expid, a[0]).Some? {
        var pa' := ParseResults(a[1..], expid);
        if pa'.complete {
          var pb := ParseResults(b, IdAfter(a[1..], expid));
          assert [EntryOf(expid, a[0]).value] + (pa'.entries + pb.entries)
              == ([EntryOf(expid, a[0]).value] + pa'.entries) + pb.entries;
        }
      }
    }
  }

  /** A bad line stops the read: what is staged is exactly what the lines before it stage. */
  lemma PartialResultsKept(lines: seq<string>, k: nat, expid: string)
    requires k < |lines| && !LineReads(lines[k])
    requires forall j | 0 <= j < k :: LineReads(lines[j])
    ensures ParseResults(lines, expid) == ResultsParse(ParseResults(lines[..k], expid).entries, false)
  {
    assert lines == lines[..k] + lines[k..];
    ParseResultsAppend(lines[..k], lines[k..], expid);
    ParseResultsComplete(lines[..k], expid);
  }

  /** Only pieces 0 and 1 of the split are kept: text after a second '=' is dropped. */
  lemma ExtraPiecesDropped(expid: string, a: string, b: string, c: string)
    requires '=' !in a && '=' !in b
    ensures EntryOf(expid, a + "=" + b + "=" + c) == Some(SciResult(expid, Trim(a), Trim(b)))
  {
    var tail := b + "=" + c;
    assert a + "=" + b + "=" + c == a + ['='] + tail;
    IndexOfFirst(a, '=', tail);
    IndexOfFirst(b, '=', c);
  }

  /** The id lines and entry lines a well-formed staged list is written as. */
  function RenderResults(entries: seq<SciResult>): seq<string> {
    if entries == [] then []
    else ["id = " + entries[0].expid, entries[0].biome + " = " + entries[0].res] + RenderResults(entries[1..])
  }

  /** An entry that survives being written out and read back: trimmed fields, no '=' in them, and a biome name not ending in "id". */
  predicate WellFormed(e: SciResult) {
    && IsTrimmed(e.biome) && IsTrimmed(e.res)
    && '=' !in e.biome && '=' !in e.res
    && !(|e.biome| >= 2 && e.biome[|e.biome| - 2..] == "id")
  }

  /**
   * An entry line is read as an id line exactly when the biome name ends in "id"
   * (with '=' only between the two fields), and then its result text becomes the current id.
   */
  lemma EntryLineIsIdLine(biome: string, res: string)
    requires '=' !in biome && '=' !in res
    ensures IsIdLine(biome + " = " + res) <==> (|biome| >= 2 && biome[|biome| - 2..] == "id")
    ensures IsIdLine(biome + " = " + res) ==> IdOf(biome + " = " + res) == res
  {
    var line := biome + " = " + res;
    var n := |biome|;
    if IsIdLine(line) {
      EntryLineAsIdLine(biome, res);
    }
    if n >= 2 && biome[n - 2..] == "id" {
      assert line[n - 2..n + 3] == "id = ";
      assert OccursAt(line, "id = ", n - 2);
    }
  }

  /** An entry line taken for an id line: its "id = " is the end of the biome name and the " = ", and its id is the result text. */
  lemma EntryLineAsIdLine(biome: string, res: string)
    requires '=' !in biome && '=' !in res
    requires IsIdLine(biome + " = " + res)
    ensures |biome| >= 2 && biome[|biome| - 2..] == "id" && IdOf(biome + " = " + res) == res
  {
    EntryLineIdSuffix(biome, res);
    var line := biome + " = " + res;
    var left, right := biome + " ", " " + res;
    assert line == left + ['='] + right;
    IndexOfFirst(left, '=', right);
    assert line[|biome| + 3..] == right[1..] == res;
  }

  /** The "id = " an entry line holds can only sit at the end of the biome name. */
  lemma EntryLineIdSuffix(biome: string, res: string)
    requires '=' !in biome && '=' !in res
    requires IsIdLine(biome + " = " + res)
    ensures |biome| >= 2 && biome[|biome| - 2..] == "id"
  {
    var line := biome + " = " + res;
    var n := |biome|;
    EntryLineEquals(biome, res);
    var i :| OccursAt(line, "id = ", i);
    var occ := line[i..i + 5];
    assert line[i + 3] == occ[3] == '=';
    assert i == n - 2;
    assert biome[n - 2] == occ[0] && biome[n - 1] == occ[1];
    assert biome[n - 2..] == [occ[0], occ[1]];
  }

  /** The only '=' of an entry line is the one between its fields. */
  lemma EntryLineEquals(biome: string, res: string)
    requires '=' !in biome && '=' !in res
    ensures var line := biome + " = " + res;
            forall j | 0 <= j < |line| :: line[j] == '=' <==> j == |biome| + 1
  {
    var line := biome + " = " + res;
    var n := |biome|;
    forall j | 0 <= j < |line| ensures line[j] == '=' <==> j == n + 1 {
      if j < n { assert line[j] == biome[j]; }
      else if j > n + 2 { assert line[j] == res[j - n - 3]; }
    }
  }

  /** An entry line of a well-formed entry is read back as that entry. */
  lemma EntryLineRoundTrip(e: SciResult, expid: string)
    requires WellFormed(e)
    ensures EntryOf(expid, e.biome + " = " + e.res) == Some(SciResult(expid, e.biome, e.res))
  {
    EntryLineFields(expid, e.biome, e.res);
    TrimTrailing(e.biome, " ");
    TrimLeading(" ", e.res);
    TrimTrimmed(e.res);
  }

  /** An entry line stages its two fields with the blanks around " = " still to be trimmed. */
  lemma EntryLineFields(expid: string, biome: string, res: string)
    requires '=' !in biome && '=' !in res
    ensures EntryOf(expid, biome + " = " + res) == Some(SciResult(expid, Trim(biome + " "), Trim(" " + res)))
  {
    var left, right := biome + " ", " " + res;
    assert biome + " = " + res == left + ['='] + right;
    assert '=' !in left && '=' !in right;
    IndexOfFirst(left, '=', right);
  }

  /** Reading an id line switches the current id and stages nothing. */
  lemma ParseIdLine(line: string, rest: seq<string>, expid: string)
    requires IsIdLine(line)
    ensures ParseResults([line] + rest, expid) == ParseResults(rest, IdOf(line))
  {
    assert ([line] + rest)[1..] == rest;
  }

  /** Reading an entry line stages its entry ahead of whatever the rest stages. */
  lemma ParseEntryLine(line: string, rest: seq<string>, expid: string)
    requires !IsIdLine(line) && EntryOf(expid, line).Some?
    ensures var r := ParseResults(rest, expid);
            ParseResults([line] + rest, expid) == ResultsParse([EntryOf(expid, line).value] + r.entries, r.complete)
  {
    assert ([line] + rest)[1..] == rest;
  }

  /** The lines of one entry: its id line, then its entry line. */
  lemma {:induction false} RenderedEntry(entries: seq<SciResult>, expid: string)
    requires entries != [] && WellFormed(entries[0])
    ensures var e := entries[0];
            ParseResults(RenderResults(entries), expid) ==
              var r := ParseResults(RenderResults(entries[1..]), e.expid);
              ResultsParse([e] + r.entries, r.complete)
  {
    var e := entries[0];
    var idLine, entryLine := "id = " + e.expid, e.biome + " = " + e.res;
    var rest := RenderResults(entries[1..]);
    assert RenderResults(entries) == [idLine] + ([entryLine] + rest);
    IdLineRoundTrip(e.expid);
    ParseIdLine(idLine, [entryLine] + rest, expid);
    EntryLineIsIdLine(e.biome, e.res);
    EntryLineRoundTrip(e, e.expid);
    ParseEntryLine(entryLine, rest, e.expid);
  }

  /** Writing well-formed entries out and reading them back gives the same entries, in order. */
  lemma {:induction false} ParseRenderRoundTrip(entries: seq<SciResult>, expid: string)
    requires forall k | 0 <= k < |entries| :: WellFormed(entries[k])
    ensures ParseResults(RenderResults(entries), expid) == ResultsParse(entries, true)
    decreases |entries|
  {
    if entries != [] {
      RenderedEntry(entries, expid);
      ParseRenderRoundTrip(entries[1..], entries[0].expid);
      assert [entries[0]] + entries[1..] == entries;
    }
  }

  /** An id line written as "id = " + id is read back as that id, whatever the id holds. */
  lemma IdLineRoundTrip(expid: string)
    ensures IsIdLine("id = " + expid) && IdOf("id = " + expid) == expid
  {
    var idLine := "id = " + expid;
    assert OccursAt(idLine, "id = ", 0);
    var i := IndexOf(idLine, '=');
    assert idLine[3] == '=';
    assert i <= 3;
    assert idLine[0] != '=' && idLine[1] != '=' && idLine[2] != '=';
  }
}
