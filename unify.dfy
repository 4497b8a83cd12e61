/** The dataset unifier of lib/ai/data.py: each external source is fetched (or not),
    its text column is chosen by a per-source candidate list, the loaded blocks are
    concatenated, cleaned, deduplicated and numbered.

    Tables follow pandas: after `pd.concat(..., ignore_index=True)` every row carries an
    index label equal to its position; `dropna`, boolean filtering and `drop_duplicates`
    keep the labels of the rows they keep; `reset_index(drop=True)` discards them. */
module Unify {
  import opened Wrappers
  import opened Seqs
  import opened PyStr

  /** Shortest text kept by the cleaning step. */
  const MinLength: nat := 20

  /** The column every source block is projected onto. */
  const TextContent: string := "text_content"

  /** A fetched table, as far as the unifier looks at it: column name to cells,
      a missing value (NaN/None) being `None`. */
  type Frame = map<string, seq<Option<string>>>

  /** How one source block picks its text column and tags its rows. */
  datatype SourceSpec = SourceSpec(candidates: seq<string>, tag: string)

  /** A row of a loaded block: `text_content` (possibly missing) and `source`. */
  datatype RawRecord = RawRecord(text: Option<string>, source: string)

  /** A row of the concatenated table once missing texts are gone, with its index label. */
  datatype Row = Row(index: nat, text: string, source: string)

  /** A row of the final dataset: `id`, `text_content`, `source`. */
  datatype Record = Record(id: nat, text: string, source: string)

  /** The eleven source blocks of `load_all_datasets`, in the order they are tried. */
  const PhysicsSources: seq<SourceSpec> := [
    SourceSpec(["content", "text"], "wikipedia_physics"),
    SourceSpec(["text"], "arxiv_physics"),
    SourceSpec(["question"], "physics_scienceqa"),
    SourceSpec(["question"], "mmlu_hs_physics"),
    SourceSpec(["question"], "mmlu_college_physics"),
    SourceSpec(["question"], "mmlu_conceptual_physics"),
    SourceSpec(["question"], "arc_easy"),
    SourceSpec(["question"], "arc_challenge"),
    SourceSpec(["question_stem"], "openbookqa"),
    SourceSpec(["instruction"], "physics_instruct"),
    SourceSpec(["passage"], "wikipedia_passages")
  ]

  // ---------------------------------------------------------------------------
  // Loading one source

  /** Index of the first candidate that is a column, if any. */
  function FirstPresent(columns: set<string>, candidates: seq<string>): (r: Option<nat>)
    ensures r.Some? ==> r.value < |candidates| && candidates[r.value] in columns
    ensures r.Some? ==> forall k :: 0 <= k < r.value ==> candidates[k] !in columns
    ensures r.None? ==> forall k :: 0 <= k < |candidates| ==> candidates[k] !in columns
  {
    if candidates == [] then None
    else if candidates[0] in columns then Some(0)
    else match FirstPresent(columns, candidates[1..])
      case None => None
      case Some(k) => Some(k + 1)
  }

  /** The column that ends up as `text_content`: the first candidate present; when no
      candidate is present the `if`/`elif` chain assigns nothing, so a column already named
      `text_content` is used as it is, and otherwise the projection fails. */
  function TextColumn(frame: Frame, candidates: seq<string>): (r: Option<string>)
    ensures r.Some? ==> r.value in frame
    ensures r.Some? && r.value != TextContent ==> r.value in candidates
    ensures (exists k :: 0 <= k < |candidates| && candidates[k] in frame) ==>
      exists k :: 0 <= k < |candidates| && r == Some(candidates[k]) && forall m :: 0 <= m < k ==> candidates[m] !in frame
    ensures r.None? <==> TextContent !in frame && forall k :: 0 <= k < |candidates| ==> candidates[k] !in frame
  {
    match FirstPresent(frame.Keys, candidates)
    case Some(k) => Some(candidates[k])
    case None => if TextContent in frame then Some(TextContent) else None
  }

  /** One source block: `None` when the fetch failed or the projection onto
      `text_content` raised; otherwise the chosen column, row by row, tagged with the
      block's source name. */
  function LoadSource(fetched: Option<Frame>, spec: SourceSpec): (r: Option<seq<RawRecord>>)
    ensures r.Some? <==> fetched.Some? && TextColumn(fetched.value, spec.candidates).Some?
    ensures r.Some? ==>
      var column := fetched.value[TextColumn(fetched.value, spec.candidates).value];
      |r.value| == |column| &&
      forall k :: 0 <= k < |r.value| ==> r.value[k].text == column[k] && r.value[k].source == spec.tag
  {
    match fetched
    case None => None
    case Some(frame) =>
      match TextColumn(frame, spec.candidates)
      case None => None
      case Some(c) => Some(seq(|frame[c]|, k requires 0 <= k < |frame[c]| => RawRecord(frame[c][k], spec.tag)))
  }

  /** The Wikipedia block prefers `content` to `text`. */
  lemma WikipediaColumnChoice(frame: Frame)
    ensures "content" in frame ==> TextColumn(frame, PhysicsSources[0].candidates) == Some("content")
    ensures "content" !in frame && "text" in frame ==> TextColumn(frame, PhysicsSources[0].candidates) == Some("text")
    ensures "content" !in frame && "text" !in frame && TextContent !in frame ==>
      LoadSource(Some(frame), PhysicsSources[0]) == None
  {
    var c := PhysicsSources[0].candidates;
    assert c == ["content", "text"];
    var fp := FirstPresent(frame.Keys, c);
    if "content" in frame {
      assert fp == Some(0);
    } else if "text" in frame {
      assert c[1..] == ["text"];
      assert FirstPresent(frame.Keys, c[1..]) == Some(0);
      assert fp == Some(1);
    }
  }

  // ---------------------------------------------------------------------------
  // Loading all sources

  /** The blocks `load_all_datasets` returns: one per source that loaded, in source order. */
  function Collected(specs: seq<SourceSpec>, fetched: seq<Option<Frame>>): seq<seq<RawRecord>>
    requires |specs| == |fetched|
  {
    if specs == [] then []
    else
      var n := |specs| - 1;
      Collected(specs[..n], fetched[..n]) +
        match LoadSource(fetched[n], specs[n])
        case None => []
        case Some(block) => [block]
  }

  /** The loop of `load_all_datasets`: try every source in turn and append each block
      that loads; a source that fails is skipped. */
  method LoadAllDatasets(specs: seq<SourceSpec>, fetched: seq<Option<Frame>>) returns (all: seq<seq<RawRecord>>)
    requires |specs| == |fetched|
    ensures all == Collected(specs, fetched)
  {
    all := [];
    var i := 0;
    while i < |specs|
      invariant 0 <= i <= |specs|
      invariant all == Collected(specs[..i], fetched[..i])
    {
      assert specs[..i + 1][..i] == specs[..i];
      assert fetched[..i + 1][..i] == fetched[..i];
      var loaded := LoadSource(fetched[i], specs[i]);
      if loaded.Some? {
        all := all + [loaded.value];
      }
      i := i + 1;
    }
    assert specs[..i] == specs && fetched[..i] == fetched;
  }

  /** The positions of the sources that load, in increasing order. */
  function LoadedSources(specs: seq<SourceSpec>, fetched: seq<Option<Frame>>): seq<nat>
    requires |specs| == |fetched|
  {
    if specs == [] then []
    else
      var n := |specs| - 1;
      LoadedSources(specs[..n], fetched[..n]) + if LoadSource(fetched[n], specs[n]).Some? then [n] else []
  }

  /** `ks` lists, in strictly increasing order, exactly the sources below `|specs|` that
      load, and block m of `blocks` is the block of source `ks[m]`. */
  ghost predicate BlocksOfSources(specs: seq<SourceSpec>, fetched: seq<Option<Frame>>, ks: seq<nat>, blocks: seq<seq<RawRecord>>)
    requires |specs| == |fetched|
  {
    |ks| == |blocks| &&
    (forall m :: 0 <= m < |ks| ==> ks[m] < |specs| && LoadSource(fetched[ks[m]], specs[ks[m]]) == Some(blocks[m])) &&
    (forall m, m' :: 0 <= m < m' < |ks| ==> ks[m] < ks[m']) &&
    (forall k :: 0 <= k < |specs| ==> (k in ks <==> LoadSource(fetched[k], specs[k]).Some?))
  }

  /** The collected blocks are those of the sources that load, each exactly once and in
      source order. */
  lemma {:induction false} CollectedOrder(specs: seq<SourceSpec>, fetched: seq<Option<Frame>>)
    requires |specs| == |fetched|
    ensures BlocksOfSources(specs, fetched, LoadedSources(specs, fetched), Collected(specs, fetched))
  {
    if specs != [] {
      var n := |specs| - 1;
      var ps, pf := specs[..n], fetched[..n];
      CollectedOrder(ps, pf);
      var pk, pc := LoadedSources(ps, pf), Collected(ps, pf);
      var ks, c := LoadedSources(specs, fetched), Collected(specs, fetched);
      var loaded := LoadSource(fetched[n], specs[n]);
      assert ks == pk + (if loaded.Some? then [n] else []);
      assert c == pc + (if loaded.Some? then [loaded.value] else []);
      assert |ks| == |c|;
      forall m | 0 <= m < |ks|
        ensures ks[m] < |specs| && LoadSource(fetched[ks[m]], specs[ks[m]]) == Some(c[m])
      {
        if m < |pk| {
          assert ks[m] == pk[m] && c[m] == pc[m];
          assert ps[pk[m]] == specs[pk[m]] && pf[pk[m]] == fetched[pk[m]];
        }
      }
      forall m, m' | 0 <= m < m' < |ks| ensures ks[m] < ks[m'] {
        if m' < |pk| {
          assert ks[m] == pk[m] && ks[m'] == pk[m'];
        } else {
          assert ks[m] == pk[m] < n;
        }
      }
      forall k | 0 <= k < |specs| ensures k in ks <==> LoadSource(fetched[k], specs[k]).Some? {
        if k < n {
          assert ps[k] == specs[k] && pf[k] == fetched[k];
          assert k in ks <==> k in pk;
        } else {
          assert forall m :: 0 <= m < |pk| ==> pk[m] != n;
          assert n !in pk;
        }
      }
    }
  }

  /** Nothing is collected exactly when every source failed; each block is the block of
      some source that loaded, so its rows carry that source's tag; the block of every
      source that loads is collected; and there are no more blocks than sources. */
  lemma {:induction false} CollectedBlocks(specs: seq<SourceSpec>, fetched: seq<Option<Frame>>)
    requires |specs| == |fetched|
    ensures |Collected(specs, fetched)| <= |specs|
    ensures Collected(specs, fetched) == [] <==> forall k :: 0 <= k < |specs| ==> LoadSource(fetched[k], specs[k]).None?
    ensures forall m :: 0 <= m < |Collected(specs, fetched)| ==>
      exists k :: 0 <= k < |specs| && LoadSource(fetched[k], specs[k]) == Some(Collected(specs, fetched)[m])
    ensures forall k :: 0 <= k < |specs| && LoadSource(fetched[k], specs[k]).Some? ==>
      LoadSource(fetched[k], specs[k]).value in Collected(specs, fetched)
  {
    var ks, c := LoadedSources(specs, fetched), Collected(specs, fetched);
    CollectedOrder(specs, fetched);
    forall m | 0 <= m < |c|
      ensures exists k :: 0 <= k < |specs| && LoadSource(fetched[k], specs[k]) == Some(c[m])
    {
      assert LoadSource(fetched[ks[m]], specs[ks[m]]) == Some(c[m]);
    }
    forall k | 0 <= k < |specs| && LoadSource(fetched[k], specs[k]).Some?
      ensures LoadSource(fetched[k], specs[k]).value in c
    {
      var m :| 0 <= m < |ks| && ks[m] == k;
    }
    if c != [] {
      assert LoadSource(fetched[ks[0]], specs[ks[0]]).Some?;
    }
    assert |c| <= |specs| by {
      StrictlyIncreasingBound(ks, |specs|);
    }
  }

  /** A strictly increasing sequence of naturals below `n` has at most `n` elements. */
  lemma {:induction false} StrictlyIncreasingBound(ks: seq<nat>, n: nat)
    requires forall m :: 0 <= m < |ks| ==> ks[m] < n
    requires forall m, m' :: 0 <= m < m' < |ks| ==> ks[m] < ks[m']
    ensures |ks| <= n
    decreases |ks|
  {
    if |ks| > 0 {
      var last := |ks| - 1;
      var front := ks[..last];
      forall m | 0 <= m < |front| ensures front[m] < ks[last] {
        assert front[m] == ks[m];
      }
      StrictlyIncreasingBound(front, ks[last]);
    }
  }

  /** Collecting from two runs of sources one after the other gives the blocks of the
      first run followed by those of the second. */
  lemma {:induction false} CollectedAppend(s1: seq<SourceSpec>, f1: seq<Option<Frame>>, s2: seq<SourceSpec>, f2: seq<Option<Frame>>)
    requires |s1| == |f1| && |s2| == |f2|
    ensures Collected(s1 + s2, f1 + f2) == Collected(s1, f1) + Collected(s2, f2)
    decreases |s2|
  {
    if s2 == [] {
      assert s1 + s2 == s1 && f1 + f2 == f1;
    } else {
      var n := |s2| - 1;
      var s, f := s1 + s2, f1 + f2;
      var last := |s| - 1;
      var tail := match LoadSource(f2[n], s2[n]) case None => [] case Some(block) => [block];
      assert Collected(s, f) == Collected(s1 + s2[..n], f1 + f2[..n]) + tail by {
        assert s[..last] == s1 + s2[..n] && f[..last] == f1 + f2[..n];
        assert s[last] == s2[n] && f[last] == f2[n];
      }
      assert Collected(s2, f2) == Collected(s2[..n], f2[..n]) + tail;
      CollectedAppend(s1, f1, s2[..n], f2[..n]);
    }
  }

  /** A source that fails contributes nothing: the run uses the blocks of the sources
      before it followed by those of the sources after it. */
  lemma FailedSourceSkipped(specs: seq<SourceSpec>, fetched: seq<Option<Frame>>, f: nat)
    requires |specs| == |fetched| && f < |specs|
    ensures LoadSource(fetched[f], specs[f]).None? ==>
      Collected(specs, fetched) == Collected(specs[..f], fetched[..f]) + Collected(specs[f + 1..], fetched[f + 1..])
  {
    var hs, hf := specs[..f + 1], fetched[..f + 1];
    assert Collected(specs, fetched) == Collected(hs, hf) + Collected(specs[f + 1..], fetched[f + 1..]) by {
      assert specs == hs + specs[f + 1..] && fetched == hf + fetched[f + 1..];
      CollectedAppend(hs, hf, specs[f + 1..], fetched[f + 1..]);
    }
    if LoadSource(fetched[f], specs[f]).None? {
      assert Collected(hs, hf) == Collected(specs[..f], fetched[..f]) by {
        assert hs[..f] == specs[..f] && hf[..f] == fetched[..f];
        assert hs[f] == specs[f] && hf[f] == fetched[f];
      }
    }
  }

  /** Every row of the concatenated table carries the tag of a source that loaded. */
  lemma ConcatenatedTags(specs: seq<SourceSpec>, fetched: seq<Option<Frame>>, r: RawRecord)
    requires |specs| == |fetched|
    requires r in Flatten(Collected(specs, fetched))
    ensures exists k :: 0 <= k < |specs| && LoadSource(fetched[k], specs[k]).Some? && r.source == specs[k].tag
  {
    var c := Collected(specs, fetched);
    CollectedBlocks(specs, fetched);
    FlattenMember(c, r);
    var m :| 0 <= m < |c| && r in c[m];
    var k :| 0 <= k < |specs| && LoadSource(fetched[k], specs[k]) == Some(c[m]);
    var j :| 0 <= j < |c[m]| && c[m][j] == r;
  }

  // ---------------------------------------------------------------------------
  // Cleaning the concatenated table

  /** Index labels strictly increase down the table: rows are in their original order. */
  predicate Ordered(rows: seq<Row>)
  {
    forall i, j :: 0 <= i < j < |rows| ==> rows[i].index < rows[j].index
  }

  /** The `text_content` column. */
  function Texts(rows: seq<Row>): seq<string>
  {
    seq(|rows|, k requires 0 <= k < |rows| => rows[k].text)
  }

  /** `dropna(subset=['text_content'])` on the concatenated table, whose index labels
      are the positions in `flat`. */
  function DropNull(flat: seq<RawRecord>): (rows: seq<Row>)
    ensures |rows| <= |flat|
    ensures Ordered(rows)
    ensures forall k :: 0 <= k < |rows| ==>
      rows[k].index < |flat| && flat[rows[k].index].text == Some(rows[k].text) && flat[rows[k].index].source == rows[k].source
    ensures forall j :: 0 <= j < |flat| && flat[j].text.Some? ==> Row(j, flat[j].text.value, flat[j].source) in rows
  {
    if flat == [] then []
    else
      var n := |flat| - 1;
      var p := DropNull(flat[..n]);
      match flat[n].text
      case None => p
      case Some(t) => p + [Row(n, t, flat[n].source)]
  }

  /** `df_all['text_content'].astype(str).str.strip()`, written back into the column. */
  function StripText(rows: seq<Row>): (r: seq<Row>)
    ensures |r| == |rows|
    ensures forall k :: 0 <= k < |r| ==> IsStripped(r[k].text)
  {
    seq(|rows|, k requires 0 <= k < |rows| => rows[k].(text := Strip(rows[k].text)))
  }

  /** `df_all[df_all['text_content'].str.len() >= 20]`. */
  function KeepLong(rows: seq<Row>): seq<Row>
  {
    if rows == [] then []
    else
      var n := |rows| - 1;
      KeepLong(rows[..n]) + if |rows[n].text| >= MinLength then [rows[n]] else []
  }

  /** `drop_duplicates(subset=['text_content'])`: a row is dropped when an earlier row
      has the same text. */
  function DropDuplicates(rows: seq<Row>): seq<Row>
  {
    if rows == [] then []
    else
      var n := |rows| - 1;
      var p := DropDuplicates(rows[..n]);
      if rows[n].text in Texts(rows[..n]) then p else p + [rows[n]]
  }

  /** The table after the cleaning steps, before the index is reset. */
  function Cleaned(flat: seq<RawRecord>): seq<Row>
  {
    DropDuplicates(KeepLong(StripText(DropNull(flat))))
  }

  /** `reset_index(drop=True)`, the `id` column `range(1, len + 1)` and the
      projection onto `id`, `text_content`, `source`. */
  function Number(rows: seq<Row>): seq<Record>
  {
    seq(|rows|, k requires 0 <= k < |rows| => Record(k + 1, rows[k].text, rows[k].source))
  }

  /** `create_final_dataset` after loading: `None` when no source loaded, otherwise
      the concatenated, cleaned and numbered table. */
  function FinalDataset(blocks: seq<seq<RawRecord>>): Option<seq<Record>>
  {
    if blocks == [] then None else Some(Number(Cleaned(Flatten(blocks))))
  }

  lemma InTexts(rows: seq<Row>, x: Row)
    requires x in rows
    ensures x.text in Texts(rows)
  {
    var k :| 0 <= k < |rows| && rows[k] == x;
    assert Texts(rows)[k] == x.text;
  }

  /** The length filter keeps exactly the rows of length at least 20, in order. */
  lemma KeepLongSpec(rows: seq<Row>)
    ensures |KeepLong(rows)| <= |rows|
    ensures forall x :: x in KeepLong(rows) ==> x in rows && |x.text| >= MinLength
    ensures forall x :: x in rows && |x.text| >= MinLength ==> x in KeepLong(rows)
    ensures Ordered(rows) ==> Ordered(KeepLong(rows))
  {
    KeepLongKeeps(rows);
    KeepLongComplete(rows);
    if Ordered(rows) {
      KeepLongOrdered(rows);
    }
  }

  lemma {:induction false} KeepLongKeeps(rows: seq<Row>)
    ensures |KeepLong(rows)| <= |rows|
    ensures forall x :: x in KeepLong(rows) ==> x in rows && |x.text| >= MinLength
  {
    if rows != [] {
      var n := |rows| - 1;
      KeepLongKeeps(rows[..n]);
      assert forall x :: x in rows[..n] ==> x in rows;
    }
  }

  lemma {:induction false} KeepLongComplete(rows: seq<Row>)
    ensures forall x :: x in rows && |x.text| >= MinLength ==> x in KeepLong(rows)
  {
    if rows != [] {
      var n := |rows| - 1;
      KeepLongComplete(rows[..n]);
      assert rows == rows[..n] + [rows[n]];
    }
  }

  lemma {:induction false} KeepLongOrdered(rows: seq<Row>)
    requires Ordered(rows)
    ensures Ordered(KeepLong(rows))
  {
    if rows != [] {
      var n := |rows| - 1;
      var p := KeepLong(rows[..n]);
      assert Ordered(rows[..n]);
      KeepLongOrdered(rows[..n]);
      KeepLongKeeps(rows[..n]);
      forall x | x in p ensures x.index < rows[n].index {
        var i :| 0 <= i < n && rows[i] == x;
      }
    }
  }

  /** Deduplication keeps one row per distinct text, drops nothing else, and keeps rows
      in order. */
  lemma DropDuplicatesSpec(rows: seq<Row>)
    ensures |DropDuplicates(rows)| <= |rows|
    ensures forall x :: x in DropDuplicates(rows) ==> x in rows
    ensures forall i, j :: 0 <= i < j < |DropDuplicates(rows)| ==> DropDuplicates(rows)[i].text != DropDuplicates(rows)[j].text
    ensures forall x :: x in rows ==> x.text in Texts(DropDuplicates(rows))
    ensures Ordered(rows) ==> Ordered(DropDuplicates(rows))
  {
    DropDuplicatesKeeps(rows);
    DropDuplicatesDistinct(rows);
    DropDuplicatesComplete(rows);
    if Ordered(rows) {
      DropDuplicatesOrdered(rows);
    }
  }

  lemma {:induction false} DropDuplicatesKeeps(rows: seq<Row>)
    ensures |DropDuplicates(rows)| <= |rows|
    ensures forall x :: x in DropDuplicates(rows) ==> x in rows
  {
    if rows != [] {
      var n := |rows| - 1;
      DropDuplicatesKeeps(rows[..n]);
      assert forall x :: x in rows[..n] ==> x in rows;
    }
  }

  lemma {:induction false} DropDuplicatesDistinct(rows: seq<Row>)
    ensures forall i, j :: 0 <= i < j < |DropDuplicates(rows)| ==> DropDuplicates(rows)[i].text != DropDuplicates(rows)[j].text
  {
    if rows != [] {
      var n := |rows| - 1;
      var prefix := rows[..n];
      var p := DropDuplicates(prefix);
      DropDuplicatesDistinct(prefix);
      if rows[n].text !in Texts(prefix) {
        DropDuplicatesKeeps(prefix);
        forall i | 0 <= i < |p| ensures p[i].text != rows[n].text {
          assert p[i] in p;
          InTexts(prefix, p[i]);
        }
      }
    }
  }

  lemma {:induction false} DropDuplicatesComplete(rows: seq<Row>)
    ensures forall x :: x in rows ==> x.text in Texts(DropDuplicates(rows))
  {
    if rows != [] {
      var n := |rows| - 1;
      var prefix := rows[..n];
      var p := DropDuplicates(prefix);
      var r := DropDuplicates(rows);
      DropDuplicatesComplete(prefix);
      assert rows == prefix + [rows[n]];
      if rows[n].text in Texts(prefix) {
        var i :| 0 <= i < n && Texts(prefix)[i] == rows[n].text;
        assert prefix[i] in prefix;
      } else {
        forall x | x in rows ensures x.text in Texts(r) {
          if x in prefix {
            var i :| 0 <= i < |p| && Texts(p)[i] == x.text;
            assert Texts(r)[i] == x.text;
          } else {
            assert Texts(r)[|p|] == x.text;
          }
        }
      }
    }
  }

  lemma {:induction false} DropDuplicatesOrdered(rows: seq<Row>)
    requires Ordered(rows)
    ensures Ordered(DropDuplicates(rows))
  {
    if rows != [] {
      var n := |rows| - 1;
      var p := DropDuplicates(rows[..n]);
      assert Ordered(rows[..n]);
      DropDuplicatesOrdered(rows[..n]);
      DropDuplicatesKeeps(rows[..n]);
      forall x | x in p ensures x.index < rows[n].index {
        var i :| 0 <= i < n && rows[i] == x;
      }
    }
  }

  /** Of the rows sharing a text, the one deduplication keeps is the earliest. */
  lemma {:induction false} DropDuplicatesKeepsFirst(rows: seq<Row>)
    requires Ordered(rows)
    ensures forall x, k :: x in rows && 0 <= k < |DropDuplicates(rows)| && x.text == DropDuplicates(rows)[k].text ==>
      DropDuplicates(rows)[k].index <= x.index
  {
    if rows != [] {
      var n := |rows| - 1;
      var prefix := rows[..n];
      var p := DropDuplicates(prefix);
      var r := DropDuplicates(rows);
      assert Ordered(prefix);
      DropDuplicatesKeepsFirst(prefix);
      DropDuplicatesKeeps(prefix);
      assert rows == prefix + [rows[n]];
      forall x, k | x in rows && 0 <= k < |r| && x.text == r[k].text ensures r[k].index <= x.index {
        FirstAt(rows, x, k);
      }
    }
  }

  /** One step of `DropDuplicatesKeepsFirst`, for the row `x` and kept position `k`. */
  lemma FirstAt(rows: seq<Row>, x: Row, k: nat)
    requires rows != [] && Ordered(rows)
    requires x in rows && k < |DropDuplicates(rows)| && x.text == DropDuplicates(rows)[k].text
    requires var prefix := rows[..|rows| - 1];
      (forall y, m :: y in prefix && 0 <= m < |DropDuplicates(prefix)| && y.text == DropDuplicates(prefix)[m].text ==>
        DropDuplicates(prefix)[m].index <= y.index) &&
      (forall y :: y in DropDuplicates(prefix) ==> y in prefix)
    ensures DropDuplicates(rows)[k].index <= x.index
  {
    var n := |rows| - 1;
    var prefix := rows[..n];
    var p := DropDuplicates(prefix);
    var r := DropDuplicates(rows);
    assert rows == prefix + [rows[n]];
    if k < |p| {
      assert r[k] == p[k] && p[k] in p;
      var i :| 0 <= i < n && rows[i] == p[k];
      if x !in prefix {
        assert x == rows[n];
      }
    } else {
      assert rows[n].text !in Texts(prefix) && r[k] == rows[n];
      if x in prefix {
        InTexts(prefix, x);
      }
    }
  }

  /** Stripping keeps every row's index label and source, and so keeps the order. */
  lemma StripTextKeeps(rows: seq<Row>)
    ensures forall k :: 0 <= k < |rows| ==>
      StripText(rows)[k] == Row(rows[k].index, Strip(rows[k].text), rows[k].source)
    ensures forall x :: x in rows ==> Row(x.index, Strip(x.text), x.source) in StripText(rows)
    ensures Ordered(rows) ==> Ordered(StripText(rows))
  {
    forall x | x in rows ensures Row(x.index, Strip(x.text), x.source) in StripText(rows) {
      var k :| 0 <= k < |rows| && rows[k] == x;
      assert StripText(rows)[k] == Row(x.index, Strip(x.text), x.source);
    }
  }

  /** The cleaned table, against the concatenated input `flat`:
      - its rows keep their input order and each comes from the input row its label names,
        with that row's text stripped and that row's source;
      - every text is stripped and at least 20 long, and no text occurs twice;
      - of the input rows whose stripped text is a kept text, the kept one is the earliest;
      - every input row that has a text whose stripped form is long enough is represented. */
  lemma CleanedSpec(flat: seq<RawRecord>)
    ensures |Cleaned(flat)| <= |flat|
    ensures Ordered(Cleaned(flat))
    ensures forall k :: 0 <= k < |Cleaned(flat)| ==> FromInput(Cleaned(flat)[k], flat)
    ensures forall k :: 0 <= k < |Cleaned(flat)| ==>
      |Cleaned(flat)[k].text| >= MinLength && IsStripped(Cleaned(flat)[k].text)
    ensures forall i, k :: 0 <= i < k < |Cleaned(flat)| ==> Cleaned(flat)[i].text != Cleaned(flat)[k].text
    ensures forall j, k :: 0 <= j < |flat| && 0 <= k < |Cleaned(flat)| && CleansTo(flat[j], Cleaned(flat)[k].text) ==>
      Cleaned(flat)[k].index <= j
    ensures forall j :: 0 <= j < |flat| && flat[j].text.Some? && |Strip(flat[j].text.value)| >= MinLength ==>
      Strip(flat[j].text.value) in Texts(Cleaned(flat))
  {
    CleanedShorter(flat);
    CleanedOrdered(flat);
    CleanedFromInput(flat);
    CleanedShape(flat);
    CleanedDistinct(flat);
    CleanedKeepsFirst(flat);
    CleanedComplete(flat);
  }

  lemma CleanedShorter(flat: seq<RawRecord>)
    ensures |Cleaned(flat)| <= |flat|
  {
    KeepLongKeeps(StripText(DropNull(flat)));
    DropDuplicatesKeeps(KeepLong(StripText(DropNull(flat))));
  }

  lemma CleanedOrdered(flat: seq<RawRecord>)
    ensures Ordered(Cleaned(flat))
  {
    var s := StripText(DropNull(flat));
    StripTextKeeps(DropNull(flat));
    KeepLongOrdered(s);
    DropDuplicatesOrdered(KeepLong(s));
  }

  /** Input row `x` has a text, and its stripped form is `t`. */
  predicate CleansTo(x: RawRecord, t: string)
  {
    x.text.Some? && Strip(x.text.value) == t
  }

  /** Row `r` is the input row its label names, with that row's text stripped. */
  predicate FromInput(r: Row, flat: seq<RawRecord>)
  {
    r.index < |flat| && CleansTo(flat[r.index], r.text) && r.source == flat[r.index].source
  }

  lemma CleanedFromInput(flat: seq<RawRecord>)
    ensures forall k :: 0 <= k < |Cleaned(flat)| ==> FromInput(Cleaned(flat)[k], flat)
  {
    var s := StripText(DropNull(flat));
    var l := KeepLong(s);
    var c := DropDuplicates(l);
    KeepLongKeeps(s);
    DropDuplicatesKeeps(l);
    forall k | 0 <= k < |c| ensures FromInput(c[k], flat) {
      assert c[k] in c;
      StrippedFromInput(flat, c[k]);
    }
  }

  lemma StrippedFromInput(flat: seq<RawRecord>, x: Row)
    ensures x in StripText(DropNull(flat)) ==> FromInput(x, flat)
  {
    var d := DropNull(flat);
    if x in StripText(d) {
      var i :| 0 <= i < |d| && StripText(d)[i] == x;
      assert x == Row(d[i].index, Strip(d[i].text), d[i].source);
    }
  }

  lemma CleanedKeepsFirst(flat: seq<RawRecord>)
    ensures forall j, k :: 0 <= j < |flat| && 0 <= k < |Cleaned(flat)| && CleansTo(flat[j], Cleaned(flat)[k].text) ==>
      Cleaned(flat)[k].index <= j
  {
    forall j, k | 0 <= j < |flat| && 0 <= k < |Cleaned(flat)| && CleansTo(flat[j], Cleaned(flat)[k].text)
      ensures Cleaned(flat)[k].index <= j
    {
      KeptIsFirst(flat, j, k);
    }
  }

  lemma KeptIsFirst(flat: seq<RawRecord>, j: nat, k: nat)
    requires j < |flat|
    ensures k < |Cleaned(flat)| && CleansTo(flat[j], Cleaned(flat)[k].text) ==> Cleaned(flat)[k].index <= j
  {
    if k < |Cleaned(flat)| && CleansTo(flat[j], Cleaned(flat)[k].text) {
      var d := DropNull(flat);
      var s := StripText(d);
      var l := KeepLong(s);
      var c := DropDuplicates(l);
      var x := Row(j, flat[j].text.value, flat[j].source);
      assert x in d;
      StripTextKeeps(d);
      var y := Row(j, Strip(x.text), x.source);
      assert y in s;
      assert c[k] in l by {
        assert c[k] in c;
        DropDuplicatesKeeps(l);
      }
      KeepLongKeeps(s);
      assert |y.text| >= MinLength;
      KeepLongComplete(s);
      assert y in l;
      StripTextKeeps(DropNull(flat));
      KeepLongOrdered(s);
      DropDuplicatesKeepsFirst(l);
    }
  }

  lemma CleanedComplete(flat: seq<RawRecord>)
    ensures forall j :: 0 <= j < |flat| && flat[j].text.Some? && |Strip(flat[j].text.value)| >= MinLength ==>
      Strip(flat[j].text.value) in Texts(Cleaned(flat))
  {
    var d := DropNull(flat);
    var s := StripText(d);
    var l := KeepLong(s);
    StripTextKeeps(d);
    KeepLongComplete(s);
    DropDuplicatesComplete(l);
    forall j | 0 <= j < |flat| && flat[j].text.Some? && |Strip(flat[j].text.value)| >= MinLength
      ensures Strip(flat[j].text.value) in Texts(Cleaned(flat))
    {
      var x := Row(j, flat[j].text.value, flat[j].source);
      assert x in d;
      assert Row(j, Strip(x.text), x.source) in l;
    }
  }

  lemma CleanedDistinct(flat: seq<RawRecord>)
    ensures forall i, k :: 0 <= i < k < |Cleaned(flat)| ==> Cleaned(flat)[i].text != Cleaned(flat)[k].text
  {
    DropDuplicatesDistinct(KeepLong(StripText(DropNull(flat))));
  }

  /** Two input rows whose texts differ only in surrounding whitespace end up as one
      cleaned row, which comes from the earlier of the two. */
  lemma PaddedTextsCollapse(flat: seq<RawRecord>, i: nat, j: nat, core: string, a: string, b: string, c: string, d: string)
    requires i < j < |flat|
    requires AllSpace(a) && AllSpace(b) && AllSpace(c) && AllSpace(d) && IsStripped(core) && |core| >= MinLength
    requires flat[i].text == Some(a + core + b) && flat[j].text == Some(c + core + d)
    ensures exists k :: 0 <= k < |Cleaned(flat)| && Cleaned(flat)[k].text == core && Cleaned(flat)[k].index <= i
    ensures forall k, m ::
      (0 <= k < |Cleaned(flat)| && 0 <= m < |Cleaned(flat)| && Cleaned(flat)[k].text == core && Cleaned(flat)[m].text == core)
      ==> k == m
  {
    StripPadded(a, core, b);
    StripPadded(c, core, d);
    KeptOnce(flat, i, core);
  }

  /** A long enough stripped text of input row `i` is kept exactly once, from a row no
      later than `i`. */
  lemma KeptOnce(flat: seq<RawRecord>, i: nat, core: string)
    requires i < |flat|
    ensures CleansTo(flat[i], core) && |core| >= MinLength ==>
      exists k :: 0 <= k < |Cleaned(flat)| && Cleaned(flat)[k].text == core && Cleaned(flat)[k].index <= i
    ensures forall k, m ::
      (0 <= k < |Cleaned(flat)| && 0 <= m < |Cleaned(flat)| && Cleaned(flat)[k].text == core && Cleaned(flat)[m].text == core)
      ==> k == m
  {
    var cl := Cleaned(flat);
    if CleansTo(flat[i], core) && |core| >= MinLength {
      assert core in Texts(cl) by {
        CleanedComplete(flat);
      }
      var k :| 0 <= k < |cl| && Texts(cl)[k] == core;
      assert cl[k].index <= i by {
        KeptIsFirst(flat, i, k);
      }
    }
    CleanedDistinct(flat);
  }

  /** What `create_final_dataset` returns for the loaded blocks: `None` exactly when no
      block loaded, and otherwise the numbered cleaned table of their concatenation. */
  lemma FinalDatasetSpec(blocks: seq<seq<RawRecord>>)
    ensures FinalDataset(blocks).None? <==> blocks == []
    ensures FinalDataset(blocks).Some? ==> FinalTable(Flatten(blocks), FinalDataset(blocks).value)
  {
    if blocks != [] {
      NumberedTableSpec(Flatten(blocks));
    }
  }

  /** Every record of the final table is tagged with the name of a source that loaded. */
  lemma FinalSourceLoaded(specs: seq<SourceSpec>, fetched: seq<Option<Frame>>, k: nat)
    requires |specs| == |fetched|
    ensures FinalDataset(Collected(specs, fetched)).Some? && k < |FinalDataset(Collected(specs, fetched)).value| ==>
      exists m :: 0 <= m < |specs| && LoadSource(fetched[m], specs[m]).Some? &&
                  FinalDataset(Collected(specs, fetched)).value[k].source == specs[m].tag
  {
    var blocks := Collected(specs, fetched);
    var flat := Flatten(blocks);
    FinalDatasetSpec(blocks);
    if FinalDataset(blocks).Some? && k < |FinalDataset(blocks).value| {
      var j := Cleaned(flat)[k].index;
      assert flat[j] in flat;
      ConcatenatedTags(specs, fetched, flat[j]);
    }
  }

  /** The promises about the final table `out` built from the concatenated rows `flat`:
      record k is row k of the cleaned table (whose order and choice of rows `CleanedSpec`
      states) with id k + 1; its text is that of the input row the cleaned row's label
      names, stripped, and its source that row's source; texts are stripped, distinct and
      at least 20 long; every long enough input text is represented, and there are as
      many records as distinct long enough stripped input texts. */
  ghost predicate FinalTable(flat: seq<RawRecord>, out: seq<Record>)
  {
    |out| == |Cleaned(flat)| && |out| <= |flat| && |out| == |LongTexts(flat)| &&
    NumberedFromOne(out) && TracesToInput(flat, out) && CleanTexts(out) && DistinctTexts(out) &&
    CoversInput(flat, out)
  }

  /** The `id` column runs 1, 2, ..., in table order. */
  predicate NumberedFromOne(out: seq<Record>)
  {
    forall k :: 0 <= k < |out| ==> out[k].id == k + 1
  }

  /** Record k holds the stripped text and the source of the input row that row k of the
      cleaned table is labelled with. */
  ghost predicate TracesToInput(flat: seq<RawRecord>, out: seq<Record>)
  {
    |out| == |Cleaned(flat)| &&
    forall k :: 0 <= k < |out| ==>
      var j := Cleaned(flat)[k].index;
      j < |flat| && CleansTo(flat[j], out[k].text) && out[k].source == flat[j].source
  }

  /** Every text is stripped and at least 20 long. */
  predicate CleanTexts(out: seq<Record>)
  {
    forall k :: 0 <= k < |out| ==> |out[k].text| >= MinLength && IsStripped(out[k].text)
  }

  /** No text occurs twice. */
  predicate DistinctTexts(out: seq<Record>)
  {
    forall k, m :: 0 <= k < m < |out| ==> out[k].text != out[m].text
  }

  /** Every input text whose stripped form is long enough appears, stripped. */
  predicate CoversInput(flat: seq<RawRecord>, out: seq<Record>)
  {
    forall j :: 0 <= j < |flat| && flat[j].text.Some? && |Strip(flat[j].text.value)| >= MinLength ==>
      Strip(flat[j].text.value) in RecordTexts(out)
  }

  /** The `text_content` column of the final table. */
  function RecordTexts(out: seq<Record>): seq<string>
  {
    seq(|out|, k requires 0 <= k < |out| => out[k].text)
  }

  lemma NumberedTableSpec(flat: seq<RawRecord>)
    ensures FinalTable(flat, Number(Cleaned(flat)))
  {
    var c := Cleaned(flat);
    var out := Number(c);
    assert |out| <= |flat| && |out| == |LongTexts(flat)| by {
      CleanedShorter(flat);
      CleanedCount(flat);
    }
    assert NumberedFromOne(out);
    assert CleanTexts(out) by {
      CleanedShape(flat);
    }
    assert DistinctTexts(out) by {
      CleanedDistinct(flat);
    }
    NumberedTraces(flat);
    NumberedCovers(flat);
  }

  lemma NumberedTraces(flat: seq<RawRecord>)
    ensures TracesToInput(flat, Number(Cleaned(flat)))
  {
    CleanedFromInput(flat);
  }

  lemma NumberedCovers(flat: seq<RawRecord>)
    ensures CoversInput(flat, Number(Cleaned(flat)))
  {
    assert RecordTexts(Number(Cleaned(flat))) == Texts(Cleaned(flat));
    CleanedComplete(flat);
  }

  lemma CleanedShape(flat: seq<RawRecord>)
    ensures forall k :: 0 <= k < |Cleaned(flat)| ==>
      |Cleaned(flat)[k].text| >= MinLength && IsStripped(Cleaned(flat)[k].text)
  {
    var s := StripText(DropNull(flat));
    var l := KeepLong(s);
    var c := DropDuplicates(l);
    KeepLongKeeps(s);
    DropDuplicatesKeeps(l);
    forall k | 0 <= k < |c|
      ensures |c[k].text| >= MinLength && IsStripped(c[k].text)
    {
      assert c[k] in c;
      StrippedAt(s, c[k]);
    }
  }

  lemma StrippedAt(s: seq<Row>, x: Row)
    requires forall k :: 0 <= k < |s| ==> IsStripped(s[k].text)
    requires x in s
    ensures IsStripped(x.text)
  {
    var i :| 0 <= i < |s| && s[i] == x;
  }

  /** `create_final_dataset` with one fetch outcome per source: load every block, give up
      with `None` when none loaded, otherwise concatenate and apply the cleaning steps
      one after the other. */
  method CreateFinalDataset(fetched: seq<Option<Frame>>) returns (result: Option<seq<Record>>)
    requires |fetched| == |PhysicsSources|
    ensures result == FinalDataset(Collected(PhysicsSources, fetched))
    ensures result.None? <==> forall k :: 0 <= k < |fetched| ==> LoadSource(fetched[k], PhysicsSources[k]).None?
  {
    var dataframes := LoadAllDatasets(PhysicsSources, fetched);
    CollectedBlocks(PhysicsSources, fetched);
    if dataframes == [] {
      return None;
    }
    var dfAll := DropNull(Flatten(dataframes));
    dfAll := StripText(dfAll);
    dfAll := KeepLong(dfAll);
    dfAll := DropDuplicates(dfAll);
    result := Some(Number(dfAll));
  }

  // ---------------------------------------------------------------------------
  // How many records survive

  /** The distinct texts of a table. */
  function TextSet(rows: seq<Row>): set<string>
  {
    set r | r in rows :: r.text
  }

  /** The distinct stripped texts of the input that are at least 20 long. */
  function LongTexts(flat: seq<RawRecord>): set<string>
  {
    set j | 0 <= j < |flat| && flat[j].text.Some? && |Strip(flat[j].text.value)| >= MinLength :: Strip(flat[j].text.value)
  }

  /** Deduplication keeps one row per distinct text. */
  lemma {:induction false} DropDuplicatesCount(rows: seq<Row>)
    ensures |DropDuplicates(rows)| == |TextSet(rows)|
  {
    if rows == [] {
      assert TextSet(rows) == {};
    } else {
      var n := |rows| - 1;
      var prefix := rows[..n];
      DropDuplicatesCount(prefix);
      TextSetSnoc(rows);
      if rows[n].text in Texts(prefix) {
        var i :| 0 <= i < n && Texts(prefix)[i] == rows[n].text;
        assert prefix[i] in prefix;
        assert rows[n].text in TextSet(prefix);
        assert DropDuplicates(rows) == DropDuplicates(prefix);
        assert TextSet(rows) == TextSet(prefix);
      } else {
        assert rows[n].text !in TextSet(prefix) by {
          if rows[n].text in TextSet(prefix) {
            var r :| r in prefix && r.text == rows[n].text;
            InTexts(prefix, r);
          }
        }
        assert DropDuplicates(rows) == DropDuplicates(prefix) + [rows[n]];
      }
    }
  }

  lemma TextSetSnoc(rows: seq<Row>)
    requires rows != []
    ensures TextSet(rows) == TextSet(rows[..|rows| - 1]) + {rows[|rows| - 1].text}
  {
    assert rows == rows[..|rows| - 1] + [rows[|rows| - 1]];
  }

  /** The texts that reach deduplication are exactly the long enough stripped input texts. */
  lemma LongRowsTexts(flat: seq<RawRecord>)
    ensures TextSet(KeepLong(StripText(DropNull(flat)))) == LongTexts(flat)
  {
    var d := DropNull(flat);
    var s := StripText(d);
    var l := KeepLong(s);
    forall x | x in TextSet(l) ensures x in LongTexts(flat) {
      var r :| r in l && r.text == x;
      KeepLongKeeps(s);
      StrippedFromInput(flat, r);
      var j := r.index;
      assert flat[j].text.Some? && Strip(flat[j].text.value) == x && |x| >= MinLength;
    }
    forall x | x in LongTexts(flat) ensures x in TextSet(l) {
      var j :| 0 <= j < |flat| && flat[j].text.Some? && |Strip(flat[j].text.value)| >= MinLength && Strip(flat[j].text.value) == x;
      var y := Row(j, flat[j].text.value, flat[j].source);
      assert y in d;
      StripTextKeeps(d);
      assert Row(j, x, y.source) in s;
      KeepLongComplete(s);
      assert Row(j, x, y.source) in l;
    }
  }

  /** The cleaned table has one row per distinct long enough stripped input text. */
  lemma CleanedCount(flat: seq<RawRecord>)
    ensures |Cleaned(flat)| == |LongTexts(flat)|
  {
    DropDuplicatesCount(KeepLong(StripText(DropNull(flat))));
    LongRowsTexts(flat);
  }

  /** A list of distinct strings has as many distinct elements as entries. */
  lemma {:induction false} DistinctCount(t: seq<string>)
    requires forall i, j :: 0 <= i < j < |t| ==> t[i] != t[j]
    ensures |set x | x in t| == |t|
  {
    if t != [] {
      var n := |t| - 1;
      DistinctCount(t[..n]);
      assert t == t[..n] + [t[n]];
      assert (set x | x in t) == (set x | x in t[..n]) + {t[n]};
    }
  }

  /** Two sources: the first yields five distinct long texts, the second a copy of one
      of them, a text under 20 characters and one new long text. The final
      table has 5 + 3 - 1 - 1 = 6 records, with ids 1 to 6. */
  lemma TwoSourceExample(first: seq<RawRecord>, second: seq<RawRecord>, dup: nat)
    requires |first| == 5 && forall i :: 0 <= i < 5 ==>
      first[i].text.Some? && IsStripped(first[i].text.value) && |first[i].text.value| >= MinLength
    requires forall i, j :: 0 <= i < j < 5 ==> first[i].text != first[j].text
    requires |second| == 3 && dup < 5 && second[0].text == first[dup].text
    requires second[1].text.Some? && |second[1].text.value| < MinLength
    requires second[2].text.Some? && IsStripped(second[2].text.value) && |second[2].text.value| >= MinLength
    requires forall i :: 0 <= i < 5 ==> first[i].text != second[2].text
    ensures FinalDataset([first, second]).Some?
    ensures |FinalDataset([first, second]).value| == 6
    ensures forall k :: 0 <= k < 6 ==> FinalDataset([first, second]).value[k].id == k + 1
  {
    var blocks := [first, second];
    assert Flatten(blocks) == first + second by {
      var rest := [second];
      assert blocks[1..] == rest && rest[1..] == [];
      assert Flatten(rest) == second + Flatten(rest[1..]);
      assert second + [] == second;
    }
    assert |LongTexts(first + second)| == 6 by {
      var long := LongTexts(first + second);
      var expected := ExampleTexts(first, second);
      ExampleTextsWithin(first, second, dup);
      ExampleTextsPresent(first, second);
      assert long == expected;
      ExampleTextCount(first, second);
    }
    FinalDatasetSpec(blocks);
  }

  /** The texts of the first source, and the new text of the second. */
  function ExampleTexts(first: seq<RawRecord>, second: seq<RawRecord>): set<string>
    requires |first| == 5 && forall i :: 0 <= i < 5 ==> first[i].text.Some?
    requires |second| == 3 && second[2].text.Some?
  {
    (set x | x in FirstTexts(first)) + {second[2].text.value}
  }

  function FirstTexts(first: seq<RawRecord>): seq<string>
    requires |first| == 5 && forall i :: 0 <= i < 5 ==> first[i].text.Some?
  {
    seq(5, i requires 0 <= i < 5 => first[i].text.value)
  }

  lemma ExampleTextCount(first: seq<RawRecord>, second: seq<RawRecord>)
    requires |first| == 5 && forall i :: 0 <= i < 5 ==> first[i].text.Some?
    requires forall i, j :: 0 <= i < j < 5 ==> first[i].text != first[j].text
    requires |second| == 3 && second[2].text.Some?
    requires forall i :: 0 <= i < 5 ==> first[i].text != second[2].text
    ensures |ExampleTexts(first, second)| == 6
  {
    var t := FirstTexts(first);
    var known := set x | x in t;
    assert |known| == 5 by {
      DistinctCount(t);
    }
    var extra := second[2].text.value;
    assert extra !in known;
    assert |known + {extra}| == 6;
  }

  lemma ExampleTextsWithin(first: seq<RawRecord>, second: seq<RawRecord>, dup: nat)
    requires |first| == 5 && forall i :: 0 <= i < 5 ==> first[i].text.Some? && IsStripped(first[i].text.value)
    requires |second| == 3 && dup < 5 && second[0].text == first[dup].text
    requires second[1].text.Some? && |second[1].text.value| < MinLength
    requires second[2].text.Some? && IsStripped(second[2].text.value)
    ensures LongTexts(first + second) <= ExampleTexts(first, second)
  {
    var flat := first + second;
    assert |Strip(flat[6].text.value)| < MinLength by {
      assert flat[6] == second[1];
    }
    forall j | 0 <= j < |flat| && flat[j].text.Some? && |Strip(flat[j].text.value)| >= MinLength
      ensures Strip(flat[j].text.value) in ExampleTexts(first, second)
    {
      ExampleRowWithin(first, second, dup, j);
    }
  }

  lemma ExampleRowWithin(first: seq<RawRecord>, second: seq<RawRecord>, dup: nat, j: nat)
    requires |first| == 5 && forall i :: 0 <= i < 5 ==> first[i].text.Some? && IsStripped(first[i].text.value)
    requires |second| == 3 && dup < 5 && second[0].text == first[dup].text
    requires second[2].text.Some? && IsStripped(second[2].text.value)
    requires j < 8 && j != 6 && (first + second)[j].text.Some?
    ensures Strip((first + second)[j].text.value) in ExampleTexts(first, second)
  {
    if j < 5 {
      assert (first + second)[j] == first[j];
      StripStripped(first[j].text.value);
      assert FirstTexts(first)[j] == first[j].text.value;
    } else if j == 5 {
      assert (first + second)[j] == second[0];
      StripStripped(first[dup].text.value);
      assert FirstTexts(first)[dup] == first[dup].text.value;
    } else {
      assert (first + second)[j] == second[2];
      StripStripped(second[2].text.value);
    }
  }

  lemma ExampleTextsPresent(first: seq<RawRecord>, second: seq<RawRecord>)
    requires |first| == 5 && forall i :: 0 <= i < 5 ==>
      first[i].text.Some? && IsStripped(first[i].text.value) && |first[i].text.value| >= MinLength
    requires |second| == 3 && second[2].text.Some? && IsStripped(second[2].text.value) && |second[2].text.value| >= MinLength
    ensures ExampleTexts(first, second) <= LongTexts(first + second)
  {
    var flat := first + second;
    forall x | x in ExampleTexts(first, second) ensures x in LongTexts(flat) {
      if x == second[2].text.value {
        assert flat[7] == second[2];
        StripStripped(x);
      } else {
        var i :| 0 <= i < 5 && FirstTexts(first)[i] == x;
        assert flat[i] == first[i];
        StripStripped(x);
      }
    }
  }
}
