/**
 * Which biome set each save loads by default. The choice is persisted as one string
 * of "save|set;" entries; at start-up each save gets the set of its first entry, or
 * "Basic" when none names it.
 */
module DefaultSets {
  import opened Wrappers
  import opened Strings

  /** The set a save gets when nothing names one. */
  const BasicSet := "Basic"

  /** split: the text before the first '|' and the text after it; ("", "") when there is no '|' (IndexOf gives -1 and Remove throws). */
  function SplitPair(source: string): (pair: (string, string))
    ensures '|' in source ==> source == pair.0 + "|" + pair.1 && '|' !in pair.0
    ensures '|' !in source ==> pair == ("", "")
  {
    var i := IndexOf(source, '|');
    if i < 0 then ("", "")
    else
      assert source == source[..i] + [source[i]] + source[i + 1..];
      (source[..i], source[i + 1..])
  }

  /** A save name without '|' is cut back out of its entry together with its set. */
  lemma SplitPairRoundTrip(save: string, biomeSet: string)
    requires '|' !in save
    ensures SplitPair(save + "|" + biomeSet) == (save, biomeSet)
  {
    var source := save + "|" + biomeSet;
    assert source[|save|] == '|' && source[..|save|] == save;
    assert IndexOf(source, '|') == |save|;
    assert source[|save| + 1..] == biomeSet;
  }

  /** The entries of the persisted string: none when it is empty, else its ';'-separated pieces. */
  function Entries(defaultSets: string): (r: Option<seq<string>>)
    ensures r.None? <==> defaultSets == ""
    ensures r.Some? ==> |r.value| >= 1 && Join(r.value, ';') == defaultSets
    ensures r.Some? ==> forall k | 0 <= k < |r.value| :: ';' !in r.value[k]
  {
    if defaultSets == "" then None else Some(Split(defaultSets, ';'))
  }

  /** The set named by the first entry whose save part equals `save`. */
  function FindSet(entries: seq<string>, save: string): (r: Option<string>)
    ensures r.None? <==> forall j | 0 <= j < |entries| :: SplitPair(entries[j]).0 != save
    ensures r.Some? ==> exists j | 0 <= j < |entries| :: SplitPair(entries[j]) == (save, r.value)
                                                     && forall i | 0 <= i < j :: SplitPair(entries[i]).0 != save
    decreases |entries|
  {
    if entries == [] then None
    else if SplitPair(entries[0]).0 == save then Some(SplitPair(entries[0]).1)
    else
      var r := FindSet(entries[1..], save);
      assert forall j | 0 < j < |entries| :: entries[j] == entries[1..][j - 1];
      if r.Some? then
        var j :| 0 <= j < |entries[1..]| && SplitPair(entries[1..][j]) == (save, r.value)
                 && forall i | 0 <= i < j :: SplitPair(entries[1..][i]).0 != save;
        assert forall i | 0 <= i < j + 1 :: SplitPair(entries[i]).0 != save by {
          forall i | 0 <= i < j + 1 ensures SplitPair(entries[i]).0 != save {
            if i > 0 { assert entries[i] == entries[1..][i - 1]; }
          }
        }
        assert SplitPair(entries[j + 1]) == (save, r.value);
        r
      else
        r
  }

  /** The set the start-up loop records for `save`. */
  function DefaultFor(save: string, defaultSets: string): string {
    match Entries(defaultSets)
    case None => BasicSet
    case Some(entries) =>
      match FindSet(entries, save)
      case None => BasicSet
      case Some(biomeSet) => biomeSet
  }

  /** A character absent from an entry is absent from both of its parts. */
  lemma SplitPairParts(source: string, c: char)
    requires c !in source
    ensures c !in SplitPair(source).0 && c !in SplitPair(source).1
  {
    var i := IndexOf(source, '|');
    if i >= 0 {
      assert SplitPair(source).1 == source[i + 1..];
    }
  }

  /** The recorded set never holds the entry separator. */
  lemma DefaultForNoSeparator(save: string, defaultSets: string)
    ensures ';' !in DefaultFor(save, defaultSets)
  {
    var entries := Entries(defaultSets);
    if entries.Some? {
      var r := FindSet(entries.value, save);
      if r.Some? {
        var j :| 0 <= j < |entries.value| && SplitPair(entries.value[j]) == (save, r.value);
        SplitPairParts(entries.value[j], ';');
      }
    }
  }

  /** The start-up loop's result: every save with its set, in save order. */
  function Assignments(saves: seq<string>, defaultSets: string): (pairs: seq<(string, string)>)
    ensures |pairs| == |saves|
    ensures forall i | 0 <= i < |saves| :: pairs[i] == (saves[i], DefaultFor(saves[i], defaultSets))
  {
    seq(|saves|, i requires 0 <= i < |saves| => (saves[i], DefaultFor(saves[i], defaultSets)))
  }

  /** The set of the first pair for `save`, as Dictionary lookup sees it. */
  function Lookup(pairs: seq<(string, string)>, save: string): (r: Option<string>)
    ensures r.None? <==> forall i | 0 <= i < |pairs| :: pairs[i].0 != save
    ensures r.Some? ==> exists i | 0 <= i < |pairs| :: pairs[i] == (save, r.value)
                                                   && forall k | 0 <= k < i :: pairs[k].0 != save
    decreases |pairs|
  {
    if pairs == [] then None
    else if pairs[0].0 == save then Some(pairs[0].1)
    else
      var r := Lookup(pairs[1..], save);
      assert forall i | 0 < i < |pairs| :: pairs[i] == pairs[1..][i - 1];
      if r.Some? then
        var i :| 0 <= i < |pairs[1..]| && pairs[1..][i] == (save, r.value)
                 && forall k | 0 <= k < i :: pairs[1..][k].0 != save;
        assert forall k | 0 <= k < i + 1 :: pairs[k].0 != save by {
          forall k | 0 <= k < i + 1 ensures pairs[k].0 != save {
            if k > 0 { assert pairs[k] == pairs[1..][k - 1]; }
          }
        }
        assert pairs[i + 1] == (save, r.value);
        r
      else
        r
  }

  /** buildDefaultsString: "save|set;" for each pair, in order. */
  function Render(pairs: seq<(string, string)>): (r: string)
    ensures r == "" <==> pairs == []
    decreases |pairs|
  {
    if pairs == [] then "" else pairs[0].0 + "|" + pairs[0].1 + ";" + Render(pairs[1..])
  }

  /** The entries Render writes, one per pair, without the separators. */
  function Pieces(pairs: seq<(string, string)>): (pieces: seq<string>)
    ensures |pieces| == |pairs|
    ensures forall i | 0 <= i < |pairs| :: pieces[i] == pairs[i].0 + "|" + pairs[i].1
  {
    seq(|pairs|, i requires 0 <= i < |pairs| => pairs[i].0 + "|" + pairs[i].1)
  }

  /** The rendered string is its entries joined with ';', followed by the empty piece after the last ';'. */
  lemma {:induction false} RenderIsJoin(pairs: seq<(string, string)>)
    ensures Render(pairs) == Join(Pieces(pairs) + [""], ';')
    decreases |pairs|
  {
    if pairs != [] {
      RenderIsJoin(pairs[1..]);
      PiecesCons(pairs);
    }
  }

  /** The pieces of a non-empty list: the first pair's entry, then the pieces of the rest. */
  lemma PiecesCons(pairs: seq<(string, string)>)
    requires pairs != []
    ensures Pieces(pairs) + [""] == [pairs[0].0 + "|" + pairs[0].1] + (Pieces(pairs[1..]) + [""])
  {
    var p, q := Pieces(pairs), Pieces(pairs[1..]);
    assert p == [p[0]] + q;
  }

  /** Pairs whose names and sets can be written out and read back. */
  predicate Storable(pairs: seq<(string, string)>) {
    forall i | 0 <= i < |pairs| :: '|' !in pairs[i].0 && ';' !in pairs[i].0 && ';' !in pairs[i].1
  }

  /** Looking a save up among the rendered entries finds its first pair, if any. */
  lemma {:induction false} FindRendered(pairs: seq<(string, string)>, save: string)
    requires Storable(pairs) && save != ""
    ensures FindSet(Pieces(pairs) + [""], save) == Lookup(pairs, save)
    decreases |pairs|
  {
    if pairs == [] {
      assert Pieces(pairs) + [""] == [""];
      assert SplitPair("") == ("", "");
    } else {
      PiecesCons(pairs);
      SplitPairRoundTrip(pairs[0].0, pairs[0].1);
      if pairs[0].0 != save {
        assert Storable(pairs[1..]) by {
          assert forall i | 0 <= i < |pairs[1..]| :: pairs[1..][i] == pairs[i + 1];
        }
        FindRendered(pairs[1..], save);
      }
    }
  }

  /** Reading back what buildDefaultsString wrote gives each save the set of its first pair, and "Basic" to the rest. */
  lemma RenderRoundTrip(pairs: seq<(string, string)>, save: string)
    requires Storable(pairs) && save != ""
    ensures DefaultFor(save, Render(pairs)) == match Lookup(pairs, save) case None => BasicSet case Some(biomeSet) => biomeSet
  {
    RenderIsJoin(pairs);
    var p := Pieces(pairs) + [""];
    forall k | 0 <= k < |p| ensures ';' !in p[k] {
      if k < |pairs| {
        assert p[k] == pairs[k].0 + "|" + pairs[k].1;
      }
    }
    SplitJoin(p, ';');
    FindRendered(pairs, save);
    if pairs == [] {
      assert Render(pairs) == "";
    } else {
      assert Render(pairs) != "";
    }
  }

  /**
   * The defaults survive a session: with save names that are non-empty, distinct and free of
   * '|' and ';', the string the start-up loop writes gives every save the set it got this time.
   */
  lemma DefaultsStable(saves: seq<string>, defaultSets: string, save: string)
    requires forall i | 0 <= i < |saves| :: saves[i] != "" && '|' !in saves[i] && ';' !in saves[i]
    requires save in saves
    ensures DefaultFor(save, Render(Assignments(saves, defaultSets))) == DefaultFor(save, defaultSets)
  {
    var pairs := Assignments(saves, defaultSets);
    forall i | 0 <= i < |pairs| ensures ';' !in pairs[i].1 {
      DefaultForNoSeparator(saves[i], defaultSets);
    }
    var i :| 0 <= i < |saves| && saves[i] == save;
    RenderRoundTrip(pairs, save);
    LookupAssigned(saves, defaultSets, save);
  }

  /** A save's pair in the assignments carries its default. */
  lemma {:induction false} LookupAssigned(saves: seq<string>, defaultSets: string, save: string)
    requires save in saves
    ensures Lookup(Assignments(saves, defaultSets), save) == Some(DefaultFor(save, defaultSets))
    decreases |saves|
  {
    if saves[0] != save {
      LookupAssigned(saves[1..], defaultSets, save);
      assert Assignments(saves, defaultSets)[1..] == Assignments(saves[1..], defaultSets);
    }
  }
}
