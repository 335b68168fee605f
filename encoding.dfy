/** The value-level part of `dataPreprocessor` (data_preprocessing.py):
    the `clean_split` tokenizer, the two library calls it leans on written out
    (`MultiLabelBinarizer`: sorted duplicate-free classes and 0/1 indicator
    rows; `MinMaxScaler`: per-column bounds and `(x - min) / (max - min)`),
    the layout of one encoded row, and the substring matching of a job
    description against a vocabulary. */
module Encoding {
  import opened Strings

  /** An element of a list-valued cell: a Python `str`, or anything else. */
  datatype Item = StrItem(s: string) | OtherItem

  /** A DataFrame cell as `clean_split` sees it. `Missing` is None or NaN,
      `Number` a non-NaN int or float, `Str` a comma-delimited string, `List` a
      Python list, `OtherValue` any other object. */
  datatype Cell = Missing | Number(x: real) | Str(s: string) | List(items: seq<Item>) | OtherValue

  /** The shape of every token `clean_split` produces. */
  predicate CleanToken(t: string) {
    t != [] && Bare(t) && forall i :: 0 <= i < |t| ==> !IsUpper(t[i])
  }

  /** A fitted vocabulary: strictly increasing and made of clean tokens. */
  predicate ValidVocab(v: seq<string>) {
    StrictlySorted(v) && forall i :: 0 <= i < |v| ==> CleanToken(v[i])
  }

  // ---------------------------------------------------------------------------
  // Tokenizer
  // ---------------------------------------------------------------------------

  /** `s.strip().lower()`, kept only when the stripped text is non-empty. */
  function CleanWord(s: string): (r: string)
    requires Strip(s) != ""
    ensures CleanToken(r)
    ensures ',' !in s ==> ',' !in r
  {
    var w := Strip(s);
    LowerShape(w);
    Lower(w)
  }

  /** Lowering keeps a string bare and comma-free, and leaves no capital. */
  lemma LowerShape(w: string)
    ensures Bare(w) ==> Bare(Lower(w))
    ensures forall c :: c in Lower(w) && c == ',' ==> c in w
    ensures forall i :: 0 <= i < |w| ==> !IsUpper(Lower(w)[i])
  {
    var r := Lower(w);
    if w != [] {
      assert r[0] == LowerChar(w[0]) && r[|r| - 1] == LowerChar(w[|w| - 1]);
    }
    forall c | c in r && c == ',' ensures c in w {
      var i :| 0 <= i < |r| && r[i] == c;
      assert w[i] == ',';
    }
  }

  /** No string item contains a comma. */
  predicate CommaFreeItems(items: seq<Item>) {
    forall i :: 0 <= i < |items| && items[i].StrItem? ==> ',' !in items[i].s
  }

  /** `[i.strip().lower() for i in items if isinstance(i, str) and i.strip()]` */
  function CleanItems(items: seq<Item>): seq<string>
    decreases |items|
  {
    if items == [] then []
    else if items[0].OtherItem? || Strip(items[0].s) == "" then CleanItems(items[1..])
    else [CleanWord(items[0].s)] + CleanItems(items[1..])
  }

  /** Every token the list comprehension keeps is clean. */
  lemma {:induction false} CleanItemsClean(items: seq<Item>)
    ensures forall i :: 0 <= i < |CleanItems(items)| ==> CleanToken(CleanItems(items)[i])
    decreases |items|
  {
    if items != [] {
      var rest := CleanItems(items[1..]);
      CleanItemsClean(items[1..]);
      if !(items[0].OtherItem? || Strip(items[0].s) == "") {
        var r := [CleanWord(items[0].s)] + rest;
        assert CleanItems(items) == r;
        forall i | 0 <= i < |r| ensures CleanToken(r[i]) {
          if i > 0 {
            assert r[i] == rest[i - 1];
          }
        }
      }
    }
  }

  /** When no item had a comma, no kept token has one. */
  lemma {:induction false} CleanItemsCommaFree(items: seq<Item>)
    requires CommaFreeItems(items)
    ensures forall i :: 0 <= i < |CleanItems(items)| ==> ',' !in CleanItems(items)[i]
    decreases |items|
  {
    if items != [] {
      var rest := CleanItems(items[1..]);
      forall i | 0 <= i < |items| - 1 && items[1..][i].StrItem? ensures ',' !in items[1..][i].s {
        assert items[1..][i] == items[i + 1];
      }
      CleanItemsCommaFree(items[1..]);
      if !(items[0].OtherItem? || Strip(items[0].s) == "") {
        assert ',' !in items[0].s;
        var r := [CleanWord(items[0].s)] + rest;
        assert CleanItems(items) == r;
        forall i | 0 <= i < |r| ensures ',' !in r[i] {
          if i > 0 {
            assert r[i] == rest[i - 1];
          }
        }
      }
    }
  }

  /** The strings of a list of str, as a list cell's items. */
  function AsItems(ts: seq<string>): (r: seq<Item>)
    ensures |r| == |ts|
    ensures forall i :: 0 <= i < |ts| ==> r[i] == StrItem(ts[i])
  {
    seq(|ts|, i requires 0 <= i < |ts| => StrItem(ts[i]))
  }

  /** The cell `df[col].apply(clean_split)` leaves behind: a list of tokens. */
  function TokenCell(ts: seq<string>): Cell {
    List(AsItems(ts))
  }

  /** `dataPreprocessor.clean_split`. */
  function CleanSplit(x: Cell): (r: seq<string>)
    ensures forall i :: 0 <= i < |r| ==> CleanToken(r[i])
    ensures x.Str? ==> forall i :: 0 <= i < |r| ==> ',' !in r[i]
    ensures !x.Str? && !x.List? ==> r == []
  {
    match x
    case Str(s) =>
      var items := AsItems(Split(s, ','));
      CleanItemsClean(items);
      CleanItemsCommaFree(items);
      CleanItems(items)
    case List(items) =>
      CleanItemsClean(items);
      CleanItems(items)
    case _ => []
  }

  /** Cleaning a concatenation cleans each part in turn: pieces keep their
      order and each is kept or dropped on its own. */
  lemma {:induction false} CleanItemsAppend(a: seq<Item>, b: seq<Item>)
    ensures CleanItems(a + b) == CleanItems(a) + CleanItems(b)
    decreases |a|
  {
    if a != [] {
      assert (a + b)[1..] == a[1..] + b;
      CleanItemsAppend(a[1..], b);
    } else {
      assert a + b == b;
    }
  }

  /** A list of clean tokens passes through the tokenizer unchanged. */
  lemma {:induction false} CleanTokensFixed(ts: seq<string>)
    requires forall i :: 0 <= i < |ts| ==> CleanToken(ts[i])
    ensures CleanItems(AsItems(ts)) == ts
    decreases |ts|
  {
    if ts != [] {
      var items := AsItems(ts);
      var t := ts[0];
      assert items[1..] == AsItems(ts[1..]);
      CleanTokensFixed(ts[1..]);
      assert items[0] == StrItem(t) && Strip(t) == t && t != "";
      LowerOfLowercase(t);
      assert CleanWord(t) == t;
      assert CleanItems(items) == [t] + CleanItems(items[1..]);
      assert ts == [t] + ts[1..];
    }
  }

  /** `clean_split` is idempotent: the column `apply(clean_split)` writes back
      yields the same tokens when it is cleaned again. */
  lemma CleanSplitIdempotent(x: Cell)
    ensures CleanSplit(TokenCell(CleanSplit(x))) == CleanSplit(x)
  {
    CleanTokensFixed(CleanSplit(x));
  }

  /** `df[col].apply(clean_split)`: a column's token lists. */
  function CleanColumn(cells: seq<Cell>): (r: seq<seq<string>>)
    ensures |r| == |cells|
    ensures forall i :: 0 <= i < |cells| ==> r[i] == CleanSplit(cells[i])
  {
    seq(|cells|, i requires 0 <= i < |cells| => CleanSplit(cells[i]))
  }

  /** The column as the assignment `df[col] = ...` leaves it. */
  function CleanedCells(cells: seq<Cell>): (r: seq<Cell>)
    ensures |r| == |cells|
    ensures forall i :: 0 <= i < |cells| ==> r[i] == TokenCell(CleanSplit(cells[i]))
  {
    seq(|cells|, i requires 0 <= i < |cells| => TokenCell(CleanSplit(cells[i])))
  }

  // ---------------------------------------------------------------------------
  // Vocabulary (MultiLabelBinarizer.fit: classes_ = sorted(set(all labels)))
  // ---------------------------------------------------------------------------

  lemma LessThanSorted(t: string, v: seq<string>)
    requires StrictlySorted(v) && v != [] && Less(t, v[0])
    ensures forall j :: 0 <= j < |v| ==> Less(t, v[j])
  {
    forall j | 0 < j < |v| ensures Less(t, v[j]) {
      LessTransitive(t, v[0], v[j]);
    }
  }

  /** Adds `t` to a strictly increasing sequence, keeping it so. */
  function Insert(v: seq<string>, t: string): (r: seq<string>)
    requires StrictlySorted(v)
    ensures StrictlySorted(r)
    ensures forall u :: u in r <==> u in v || u == t
    decreases |v|
  {
    if v == [] then [t]
    else if t == v[0] then v
    else if Less(t, v[0]) then
      LessThanSorted(t, v);
      [t] + v
    else
      LessTotal(t, v[0]);
      var rest := Insert(v[1..], t);
      assert forall j :: 0 <= j < |rest| ==> rest[j] in v[1..] || rest[j] == t;
      assert forall u :: u in v[1..] ==> Less(v[0], u);
      [v[0]] + rest
  }

  function InsertAll(v: seq<string>, ts: seq<string>): (r: seq<string>)
    requires StrictlySorted(v)
    ensures StrictlySorted(r)
    ensures forall u :: u in r <==> u in v || u in ts
    decreases |ts|
  {
    if ts == [] then v
    else
      assert forall u :: u in ts <==> u == ts[0] || u in ts[1..];
      InsertAll(Insert(v, ts[0]), ts[1..])
  }

  /** `MultiLabelBinarizer().fit(rows).classes_`: every token of every row,
      once each, in increasing order. */
  function FitVocabulary(rows: seq<seq<string>>): (r: seq<string>)
    ensures StrictlySorted(r)
    ensures forall u :: u in r <==> exists i :: 0 <= i < |rows| && u in rows[i]
    decreases |rows|
  {
    if rows == [] then []
    else
      var init := rows[..|rows| - 1];
      assert forall i :: 0 <= i < |init| ==> init[i] == rows[i];
      InsertAll(FitVocabulary(init), rows[|rows| - 1])
  }

  /** The vocabulary is the one strictly increasing listing of the corpus
      tokens: any other such listing equals it. */
  lemma VocabularyUnique(rows: seq<seq<string>>, v: seq<string>)
    requires StrictlySorted(v)
    requires forall u :: u in v <==> exists i :: 0 <= i < |rows| && u in rows[i]
    ensures v == FitVocabulary(rows)
  {
    SortedUnique(v, FitVocabulary(rows));
  }

  /** A column whose records are all empty gets an empty vocabulary (a block
      of width zero), and only such a column does. */
  lemma VocabularyEmpty(rows: seq<seq<string>>)
    ensures FitVocabulary(rows) == [] <==> forall i :: 0 <= i < |rows| ==> rows[i] == []
  {
    var v := FitVocabulary(rows);
    forall i | 0 <= i < |rows| && rows[i] != [] ensures rows[i][0] in v {
    }
    assert v != [] ==> v[0] in v;
  }

  /** Fitting on clean tokens gives a valid vocabulary. */
  lemma VocabularyValid(rows: seq<seq<string>>)
    requires forall i, j :: 0 <= i < |rows| && 0 <= j < |rows[i]| ==> CleanToken(rows[i][j])
    ensures ValidVocab(FitVocabulary(rows))
  {
    var v := FitVocabulary(rows);
    forall k | 0 <= k < |v| ensures CleanToken(v[k]) {
      assert v[k] in v;
      var i :| 0 <= i < |rows| && v[k] in rows[i];
      var j :| 0 <= j < |rows[i]| && rows[i][j] == v[k];
    }
  }

  // ---------------------------------------------------------------------------
  // Multi-hot block (MultiLabelBinarizer.transform of one record)
  // ---------------------------------------------------------------------------

  /** The indicator row of one record: one entry per vocabulary token. */
  function Block(vocab: seq<string>, tokens: seq<string>): (r: seq<real>)
    ensures |r| == |vocab|
  {
    seq(|vocab|, j requires 0 <= j < |vocab| => if vocab[j] in tokens then 1.0 else 0.0)
  }

  /** The tokens a block marks present. */
  function Decoded(vocab: seq<string>, block: seq<real>): set<string>
    requires |block| == |vocab|
  {
    set j | 0 <= j < |vocab| && block[j] == 1.0 :: vocab[j]
  }

  /** Decoding a record's block gives back exactly its tokens that are in the
      vocabulary: unseen tokens are dropped, repeats collapse. */
  lemma BlockRoundTrip(vocab: seq<string>, tokens: seq<string>)
    ensures Decoded(vocab, Block(vocab, tokens)) == set t | t in tokens && t in vocab
  {
    var b := Block(vocab, tokens);
    forall t | t in tokens && t in vocab ensures t in Decoded(vocab, b) {
      var j :| 0 <= j < |vocab| && vocab[j] == t;
      assert b[j] == 1.0;
    }
  }

  /** Every entry of a block is 0 or 1, and 1 exactly at the vocabulary
      tokens the record holds. */
  lemma BlockEntries(vocab: seq<string>, tokens: seq<string>, j: int)
    requires 0 <= j < |vocab|
    ensures Block(vocab, tokens)[j] == 1.0 <==> vocab[j] in tokens
    ensures Block(vocab, tokens)[j] == 0.0 <==> vocab[j] !in tokens
  {
  }

  /** A block depends only on which vocabulary tokens are present: order,
      repetition and unseen tokens make no difference. */
  lemma BlockSameTokens(vocab: seq<string>, a: seq<string>, b: seq<string>)
    requires forall j :: 0 <= j < |vocab| ==> (vocab[j] in a <==> vocab[j] in b)
    ensures Block(vocab, a) == Block(vocab, b)
  {
  }

  // ---------------------------------------------------------------------------
  // Min-max scaling (MinMaxScaler with feature_range (0, 1))
  // ---------------------------------------------------------------------------

  /** A fitted scaler column: `data_min_` and `data_max_`. */
  datatype Bounds = Bounds(lo: real, hi: real)

  function MinOf(xs: seq<real>): (m: real)
    requires |xs| > 0
    ensures m in xs
    ensures forall i :: 0 <= i < |xs| ==> m <= xs[i]
    decreases |xs|
  {
    if |xs| == 1 then xs[0]
    else
      var m := MinOf(xs[1..]);
      assert forall i :: 1 <= i < |xs| ==> xs[i] == xs[1..][i - 1];
      if xs[0] <= m then xs[0] else m
  }

  function MaxOf(xs: seq<real>): (m: real)
    requires |xs| > 0
    ensures m in xs
    ensures forall i :: 0 <= i < |xs| ==> xs[i] <= m
    decreases |xs|
  {
    if |xs| == 1 then xs[0]
    else
      var m := MaxOf(xs[1..]);
      assert forall i :: 1 <= i < |xs| ==> xs[i] == xs[1..][i - 1];
      if m <= xs[0] then xs[0] else m
  }

  /** `MinMaxScaler.fit` on one column. */
  function FitBounds(xs: seq<real>): (b: Bounds)
    requires |xs| > 0
    ensures b.lo <= b.hi
  {
    Bounds(MinOf(xs), MaxOf(xs))
  }

  /** `MinMaxScaler.transform` on one value: `(x - min) / (max - min)`; a zero
      range is replaced by 1, as scikit-learn does, so `x - min` then. */
  function Scale(x: real, b: Bounds): real {
    if b.hi == b.lo then x - b.lo else (x - b.lo) / (b.hi - b.lo)
  }

  /** On the corpus it was fitted on, the scaler lands in [0, 1], sends the
      minimum to 0 and, when the range is not zero, the maximum to 1. */
  lemma ScaleFitCorpus(xs: seq<real>, i: int)
    requires 0 <= i < |xs|
    ensures 0.0 <= Scale(xs[i], FitBounds(xs)) <= 1.0
    ensures xs[i] == MinOf(xs) ==> Scale(xs[i], FitBounds(xs)) == 0.0
    ensures xs[i] == MaxOf(xs) && MinOf(xs) < MaxOf(xs) ==> Scale(xs[i], FitBounds(xs)) == 1.0
  {
    ScaleWithin(xs[i], FitBounds(xs));
  }

  /** A value inside the fitted range scales into [0, 1], its ends to 0 and 1. */
  lemma ScaleWithin(x: real, b: Bounds)
    requires b.lo <= x <= b.hi
    ensures 0.0 <= Scale(x, b) <= 1.0
    ensures x == b.lo ==> Scale(x, b) == 0.0
    ensures x == b.hi && b.lo < b.hi ==> Scale(x, b) == 1.0
  {
    if b.lo < b.hi {
      DivideUnit(x - b.lo, b.hi - b.lo);
    }
  }

  lemma DivideUnit(n: real, d: real)
    requires 0.0 <= n <= d && 0.0 < d
    ensures 0.0 <= n / d <= 1.0
    ensures n == d ==> n / d == 1.0
    ensures n == 0.0 ==> n / d == 0.0
  {
  }

  /** With a non-zero range the scaling is undone by `lo + s * (hi - lo)`. */
  lemma ScaleInverse(x: real, b: Bounds)
    requires b.lo < b.hi
    ensures b.lo + Scale(x, b) * (b.hi - b.lo) == x
  {
  }

  /** Scaling keeps the order of values. */
  lemma ScaleMonotone(x: real, y: real, b: Bounds)
    requires b.lo <= b.hi && x <= y
    ensures Scale(x, b) <= Scale(y, b)
  {
    if b.lo < b.hi {
      var d := b.hi - b.lo;
      assert Scale(y, b) - Scale(x, b) == (y - x) / d;
    }
  }

  // ---------------------------------------------------------------------------
  // Layout of one encoded record
  // ---------------------------------------------------------------------------

  /** Total width of the categorical blocks. */
  function Width(vocabs: seq<seq<string>>): nat
    decreases |vocabs|
  {
    if vocabs == [] then 0 else Width(vocabs[..|vocabs| - 1]) + |vocabs[|vocabs| - 1]|
  }

  /** The blocks of one record, one per categorical column, side by side. */
  function Blocks(vocabs: seq<seq<string>>, toks: seq<seq<string>>): (r: seq<real>)
    requires |toks| == |vocabs|
    ensures |r| == Width(vocabs)
    decreases |vocabs|
  {
    if vocabs == [] then []
    else
      var n := |vocabs| - 1;
      Blocks(vocabs[..n], toks[..n]) + Block(vocabs[n], toks[n])
  }

  /** The scaled numeric values of one record, in column order. */
  function Scaled(bounds: seq<Bounds>, xs: seq<real>): (r: seq<real>)
    requires |xs| == |bounds|
    ensures |r| == |bounds|
  {
    seq(|xs|, k requires 0 <= k < |xs| => Scale(xs[k], bounds[k]))
  }

  /** One encoded record: categorical blocks first, then numeric columns. */
  function EncodeRow(vocabs: seq<seq<string>>, toks: seq<seq<string>>, bounds: seq<Bounds>, xs: seq<real>): (r: seq<real>)
    requires |toks| == |vocabs| && |xs| == |bounds|
    ensures |r| == Width(vocabs) + |bounds|
  {
    Blocks(vocabs, toks) + Scaled(bounds, xs)
  }

  lemma {:induction false} BlocksAt(vocabs: seq<seq<string>>, toks: seq<seq<string>>, k: int, j: int)
    requires |toks| == |vocabs|
    requires 0 <= k < |vocabs| && 0 <= j < |vocabs[k]|
    ensures Width(vocabs[..k]) + j < Width(vocabs)
    ensures Blocks(vocabs, toks)[Width(vocabs[..k]) + j] == Block(vocabs[k], toks[k])[j]
    decreases |vocabs|
  {
    var n := |vocabs| - 1;
    assert vocabs[..n][..k] == vocabs[..k] by {
      assert k <= n;
    }
    if k == n {
      assert vocabs[..k] == vocabs[..n];
    } else {
      assert toks[..n][k] == toks[k] && vocabs[..n][k] == vocabs[k];
      BlocksAt(vocabs[..n], toks[..n], k, j);
    }
  }

  /** Numeric column `m` of an encoded record, after all the blocks. */
  lemma EncodeRowNumeric(vocabs: seq<seq<string>>, toks: seq<seq<string>>, bounds: seq<Bounds>, xs: seq<real>, m: int)
    requires |toks| == |vocabs| && |xs| == |bounds|
    requires 0 <= m < |bounds|
    ensures EncodeRow(vocabs, toks, bounds, xs)[Width(vocabs) + m] == Scale(xs[m], bounds[m])
  {
    assert |Blocks(vocabs, toks)| == Width(vocabs);
  }

  /** Where everything sits in an encoded record: token `j` of column `k`'s
      vocabulary at offset `Width(vocabs[..k]) + j`, holding 1 exactly when the
      record has that token; numeric column `m` at `Width(vocabs) + m`, holding
      its scaled value. */
  lemma EncodeRowLayout(vocabs: seq<seq<string>>, toks: seq<seq<string>>, bounds: seq<Bounds>, xs: seq<real>, k: int, j: int, m: int)
    requires |toks| == |vocabs| && |xs| == |bounds|
    requires 0 <= k < |vocabs| && 0 <= j < |vocabs[k]|
    requires 0 <= m < |bounds|
    ensures Width(vocabs[..k]) + j < Width(vocabs)
    ensures EncodeRow(vocabs, toks, bounds, xs)[Width(vocabs[..k]) + j] == if vocabs[k][j] in toks[k] then 1.0 else 0.0
    ensures EncodeRow(vocabs, toks, bounds, xs)[Width(vocabs) + m] == Scale(xs[m], bounds[m])
  {
    BlocksAt(vocabs, toks, k, j);
  }

  // ---------------------------------------------------------------------------
  // Job-description projection
  // ---------------------------------------------------------------------------

  /** The value `process_job_description` gives every numeric column. */
  const Neutral: real := 0.5

  /** `[word for word in vocab if word in jd_text]`. */
  function Matched(vocab: seq<string>, text: string): (r: seq<string>)
    ensures forall u :: u in r <==> u in vocab && IsSubstring(u, text)
    ensures |r| <= |vocab|
    decreases |vocab|
  {
    if vocab == [] then []
    else
      var rest := Matched(vocab[1..], text);
      assert forall u :: u in vocab <==> u == vocab[0] || u in vocab[1..];
      if IsSubstring(vocab[0], text) then [vocab[0]] + rest else rest
  }

  /** The record a job description becomes: in every block the vocabulary
      tokens found in the lowercased text, in every numeric slot the neutral
      value passed through the fitted scaler. */
  function JdRow(vocabs: seq<seq<string>>, text: string, bounds: seq<Bounds>): (r: seq<real>)
    ensures |r| == Width(vocabs) + |bounds|
  {
    var low := Lower(text);
    EncodeRow(vocabs, seq(|vocabs|, k requires 0 <= k < |vocabs| => Matched(vocabs[k], low)), bounds,
              seq(|bounds|, _ => Neutral))
  }

  /** A job description's block entry is 1 exactly when that vocabulary token
      occurs as a substring of the lowercased text; its numeric entries are
      the fitted scaling of 0.5, not 0.5 itself. */
  lemma JdRowLayout(vocabs: seq<seq<string>>, text: string, bounds: seq<Bounds>, k: int, j: int, m: int)
    requires 0 <= k < |vocabs| && 0 <= j < |vocabs[k]|
    requires 0 <= m < |bounds|
    ensures Width(vocabs[..k]) + j < Width(vocabs)
    ensures JdRow(vocabs, text, bounds)[Width(vocabs[..k]) + j] == 1.0 <==> IsSubstring(vocabs[k][j], Lower(text))
    ensures JdRow(vocabs, text, bounds)[Width(vocabs[..k]) + j] == 0.0 <==> !IsSubstring(vocabs[k][j], Lower(text))
    ensures JdRow(vocabs, text, bounds)[Width(vocabs) + m] == Scale(0.5, bounds[m])
  {
    var low := Lower(text);
    var toks := seq(|vocabs|, k requires 0 <= k < |vocabs| => Matched(vocabs[k], low));
    EncodeRowLayout(vocabs, toks, bounds, seq(|bounds|, _ => Neutral), k, j, m);
    assert vocabs[k][j] in vocabs[k];
  }

  /** The numeric entry of a job description is 0.5 only when the fitted range
      happens to be [0, 1]: with bounds 0 and 100 it is 0.005. */
  lemma JdNumericIsScaled()
    ensures Scale(Neutral, Bounds(0.0, 100.0)) == 0.005
    ensures Scale(Neutral, Bounds(0.0, 1.0)) == 0.5
  {
  }
}
