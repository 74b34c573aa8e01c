/**
 * `replace_by_class_names`: rewrite a column of comma-separated AudioSet machine ids
 * ("/m/09x0r,/m/05zppz") into the classes' display names ("Speech, Male speech"), using the
 * `mid` and `display_name` columns of the class-label table. Ids with no entry stay as they are.
 */
module AudiosetLabels {
  import opened Results
  import opened Seqs

  /** A data frame: each column name to its values, all values strings. */
  type Table = map<string, seq<string>>

  const MidColumn: string := "mid"
  const NameColumn: string := "display_name"

  // ----- str.split and str.join -----

  /** `s.split(sep)` for a one-character separator: the pieces between separators, empty ones included. */
  function Split(s: string, sep: char): (parts: seq<string>)
    ensures |parts| >= 1
    decreases |s|
  {
    if |s| == 0 then [""]
    else
      var rest := Split(s[1..], sep);
      if s[0] == sep then [""] + rest else [[s[0]] + rest[0]] + rest[1..]
  }

  /** `sep.join(parts)`: the first part opens the result. */
  function Join(parts: seq<string>, sep: string): (r: string)
    ensures |parts| > 0 ==> |r| >= |parts[0]| && r[..|parts[0]|] == parts[0]
    decreases |parts|
  {
    if |parts| == 0 then ""
    else if |parts| == 1 then parts[0]
    else parts[0] + sep + Join(parts[1..], sep)
  }

  /** No piece of a split contains the separator. */
  lemma {:induction false} SplitPartsFree(s: string, sep: char)
    ensures forall q :: 0 <= q < |Split(s, sep)| ==> sep !in Split(s, sep)[q]
    decreases |s|
  {
    if |s| > 0 {
      SplitPartsFree(s[1..], sep);
      var rest := Split(s[1..], sep);
      if s[0] != sep {
        assert forall q :: 1 <= q < |Split(s, sep)| ==> Split(s, sep)[q] == rest[q];
      }
    }
  }

  /** Splitting yields one more piece than there are separators. */
  lemma {:induction false} SplitCount(s: string, sep: char)
    ensures |Split(s, sep)| == multiset(s)[sep] + 1
    decreases |s|
  {
    if |s| > 0 {
      SplitCount(s[1..], sep);
      assert s == [s[0]] + s[1..];
    }
  }

  /** Joining the pieces with the separator gives back the string. */
  lemma {:induction false} SplitJoin(s: string, sep: char)
    ensures Join(Split(s, sep), [sep]) == s
    decreases |s|
  {
    if |s| > 0 {
      var rest := Split(s[1..], sep);
      SplitJoin(s[1..], sep);
      if s[0] == sep {
        assert Split(s, sep) == [""] + rest;
        assert Join(Split(s, sep), [sep]) == "" + [sep] + Join(rest, [sep]);
      } else {
        JoinConsFirst(s[0], rest, [sep]);
      }
      assert s == [s[0]] + s[1..];
    }
  }

  /** Prefixing a character to the first piece prefixes it to the joined string. */
  lemma JoinConsFirst(c: char, parts: seq<string>, sep: string)
    requires |parts| >= 1
    ensures Join([[c] + parts[0]] + parts[1..], sep) == [c] + Join(parts, sep)
  {
    var ps := [[c] + parts[0]] + parts[1..];
    if |parts| > 1 {
      assert ps[1..] == parts[1..];
    }
  }

  /** Pieces free of the separator split back out of their join. */
  lemma {:induction false} JoinSplit(parts: seq<string>, sep: char)
    requires |parts| >= 1
    requires forall q :: 0 <= q < |parts| ==> sep !in parts[q]
    ensures Split(Join(parts, [sep]), sep) == parts
    decreases |parts|, |parts[0]|
  {
    if |parts[0]| > 0 {
      var c := parts[0][0];
      var tail := [parts[0][1..]] + parts[1..];
      assert parts[0] == [c] + tail[0];
      assert tail[1..] == parts[1..];
      assert parts == [[c] + tail[0]] + tail[1..];
      JoinSplit(tail, sep);
      JoinConsFirst(c, tail, [sep]);
      var j := Join(parts, [sep]);
      assert j[1..] == Join(tail, [sep]);
    } else if |parts| > 1 {
      JoinSplit(parts[1..], sep);
      var j := Join(parts, [sep]);
      assert j == [sep] + Join(parts[1..], [sep]);
      assert j[1..] == Join(parts[1..], [sep]);
    }
  }

  // ----- the id-to-name mapping -----

  /** `dict(zip(mids, names))`: pairs up to the shorter column; a repeated id keeps its last name. */
  function BuildMapping(mids: seq<string>, names: seq<string>): (m: map<string, string>)
    ensures forall k :: k in m <==> exists i :: 0 <= i < Min(|mids|, |names|) && mids[i] == k
    decreases |mids|
  {
    var n := Min(|mids|, |names|);
    if n == 0 then map[]
    else
      var prev := BuildMapping(mids[..n - 1], names[..n - 1]);
      assert forall k :: k in prev <==> exists i :: 0 <= i < n - 1 && mids[i] == k;
      prev[mids[n - 1] := names[n - 1]]
  }

  /** The name an id maps to is the one on its last row. */
  lemma {:induction false} MappingLastWins(mids: seq<string>, names: seq<string>, i: nat)
    requires i < Min(|mids|, |names|)
    requires forall j :: i < j < Min(|mids|, |names|) ==> mids[j] != mids[i]
    ensures BuildMapping(mids, names)[mids[i]] == names[i]
    decreases |mids|
  {
    var n := Min(|mids|, |names|);
    if i < n - 1 {
      MappingLastWins(mids[..n - 1], names[..n - 1], i);
    }
  }

  /** `label_mapping.get(mid, mid)`. */
  function Lookup(m: map<string, string>, id: string): (name: string)
    ensures id in m ==> name == m[id]
    ensures id !in m ==> name == id
  {
    if id in m then m[id] else id
  }

  // ----- replace_labels -----

  /**
   * `replace_labels(label_str)`: split on ",", look each id up, join with ", ". The cell
   * opens with the first id's name; an empty cell is the one id "" and becomes
   * `label_mapping.get("", "")`.
   */
  function ReplaceLabels(m: map<string, string>, labels: string): (r: string)
    ensures var first := Lookup(m, Split(labels, ',')[0]);
      |r| >= |first| && r[..|first|] == first
    ensures labels == "" ==> r == Lookup(m, "")
  {
    var ids := Split(labels, ',');
    Join(seq(|ids|, q requires 0 <= q < |ids| => Lookup(m, ids[q])), ", ")
  }

  /** `labels` with a space inserted after every comma. */
  function SpaceAfterCommas(s: string): string
    decreases |s|
  {
    if |s| == 0 then ""
    else (if s[0] == ',' then ", " else [s[0]]) + SpaceAfterCommas(s[1..])
  }

  /** With no id known, the names are the ids themselves and only the separators change. */
  lemma {:induction false} UnknownIdsOnlyRespace(m: map<string, string>, labels: string)
    requires forall id :: id in Split(labels, ',') ==> id !in m
    ensures ReplaceLabels(m, labels) == SpaceAfterCommas(labels)
  {
    var ids := Split(labels, ',');
    assert seq(|ids|, q requires 0 <= q < |ids| => Lookup(m, ids[q])) == ids;
    JoinRespaced(labels);
  }

  lemma {:induction false} JoinRespaced(s: string)
    ensures Join(Split(s, ','), ", ") == SpaceAfterCommas(s)
    decreases |s|
  {
    if |s| > 0 {
      var rest := Split(s[1..], ',');
      JoinRespaced(s[1..]);
      if s[0] == ',' {
        assert Split(s, ',') == [""] + rest;
      } else {
        JoinConsFirst(s[0], rest, ", ");
      }
    }
  }

  /** The names after the first, each preceded by the space the join adds. */
  function Spaced(parts: seq<string>): (r: seq<string>)
    requires |parts| >= 1
    ensures |r| == |parts| && r[0] == parts[0]
    ensures forall q :: 1 <= q < |parts| ==> r[q] == " " + parts[q]
  {
    [parts[0]] + seq(|parts| - 1, q requires 0 <= q < |parts| - 1 => " " + parts[q + 1])
  }

  lemma {:induction false} JoinWithSpace(parts: seq<string>)
    requires |parts| >= 1
    ensures Join(parts, ", ") == Join(Spaced(parts), [','])
    decreases |parts|
  {
    if |parts| > 1 {
      JoinWithSpace(parts[1..]);
      var sp := Spaced(parts[1..]);
      var r := Spaced(parts);
      var tail := Join(sp, [',']);
      assert Join(parts, ", ") == parts[0] + ", " + tail;
      assert r[1..] == [" " + sp[0]] + sp[1..];
      JoinConsFirst(' ', sp, [',']);
      assert Join(r[1..], [',']) == " " + tail;
      assert |r| > 1 && r[0] == parts[0];
      assert Join(r, [',']) == parts[0] + [','] + (" " + tail);
      assert parts[0] + [','] + (" " + tail) == parts[0] + ", " + tail;
    }
  }

  /**
   * When no display name contains a comma, splitting the result on "," gives one piece per
   * id again: the first id's name, then each further name behind the space the join added.
   */
  lemma ReplaceLabelsSplitsBack(m: map<string, string>, labels: string)
    requires forall id :: id in m ==> ',' !in m[id]
    ensures var ids := Split(labels, ',');
      var out := Split(ReplaceLabels(m, labels), ',');
      && |out| == |ids|
      && out[0] == Lookup(m, ids[0])
      && forall q :: 1 <= q < |ids| ==> out[q] == " " + Lookup(m, ids[q])
  {
    var ids := Split(labels, ',');
    var names := seq(|ids|, q requires 0 <= q < |ids| => Lookup(m, ids[q]));
    SplitPartsFree(labels, ',');
    JoinWithSpace(names);
    var sp := Spaced(names);
    forall q | 0 <= q < |sp|
      ensures ',' !in sp[q]
    {
      if q > 0 {
        assert sp[q] == [' '] + names[q];
      }
    }
    JoinSplit(sp, ',');
  }

  /**
   * The one-piece-per-id correspondence needs comma-free names: a single known id whose
   * display name holds commas re-splits into one more piece per comma.
   */
  lemma CommaNameAddsParts(m: map<string, string>, id: string)
    requires id in m && ',' !in id
    ensures |Split(id, ',')| == 1
    ensures |Split(ReplaceLabels(m, id), ',')| == multiset(m[id])[','] + 1
  {
    SplitCount(id, ',');
    SplitJoin(id, ',');
    var ids := Split(id, ',');
    assert ids == [id];
    assert seq(|ids|, q requires 0 <= q < |ids| => Lookup(m, ids[q])) == [m[id]];
    assert ReplaceLabels(m, id) == m[id];
    SplitCount(m[id], ',');
  }

  /** An AudioSet-style name such as "Male speech, man speaking": one id, two pieces. */
  lemma CommaNameExample()
    ensures |Split("/m/x", ',')| == 1
    ensures |Split(ReplaceLabels(map["/m/x" := "a, b"], "/m/x"), ',')| == 2
  {
    var m := map["/m/x" := "a, b"];
    assert "/m/x" in m && ',' !in "/m/x";
    CommaNameAddsParts(m, "/m/x");
    assert m["/m/x"] == "a, b";
    assert multiset("a, b")[','] == 1;
  }

  // ----- replace_by_class_names -----

  /**
   * `replace_by_class_names(audioset_df, coded_col_name, class_labels_df)`: a copy of the
   * table with the coded column rewritten. A missing column raises `KeyError`.
   */
  function ReplaceByClassNames(table: Table, column: string, classes: Table): (r: Result<Table>)
    ensures r.Err? <==> MidColumn !in classes || NameColumn !in classes || column !in table
    ensures r.Ok? ==> r.value.Keys == table.Keys
    ensures r.Ok? ==> forall c :: c in table && c != column ==> r.value[c] == table[c]
    ensures r.Ok? ==> |r.value[column]| == |table[column]|
    ensures r.Ok? ==> forall i :: 0 <= i < |table[column]| ==>
      r.value[column][i] == ReplaceLabels(BuildMapping(classes[MidColumn], classes[NameColumn]), table[column][i])
  {
    if MidColumn !in classes || NameColumn !in classes then Err(MissingKey)
    else
      var m := BuildMapping(classes[MidColumn], classes[NameColumn]);
      if column !in table then Err(MissingKey)
      else
        var cells := table[column];
        Ok(table[column := seq(|cells|, i requires 0 <= i < |cells| => ReplaceLabels(m, cells[i]))])
  }
}
