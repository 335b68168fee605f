/** `dataPreprocessor` (data_preprocessing.py): a fit/transform encoder that
    turns candidate records into fixed-layout vectors (multi-hot blocks for the
    categorical columns, min-max scaled numeric columns) and projects a job
    description into the same layout. The pandas frame it works on is the
    class `Table`, whose columns the encoder overwrites in place. */
module Preprocessing {
  import opened Wrappers
  import opened Strings
  import opened Encoding

  /** What the source raises. */
  datatype Error =
    | MissingColumn(name: string)   // KeyError from `df[col]` or `df[numeric_cols]`
    | NotFitted(name: string)       // KeyError from `self.mlb_dict[col]`
    | ScalerNotFitted               // NotFittedError from `self.scaler.transform`
    | NonNumeric(name: string)      // ValueError: a numeric column holds a non-number
    | EmptyInput                    // ValueError: no records, or no numeric column

  /** Every column has one cell per record. */
  predicate Shaped(t: map<string, seq<Cell>>, h: nat) {
    forall c :: c in t ==> |t[c]| == h
  }

  /** A pandas DataFrame: `height` records, and a column of cells per name. */
  class Table {
    var height: nat
    var columns: map<string, seq<Cell>>

    ghost predicate Valid()
      reads this
    {
      Shaped(columns, height)
    }

    constructor (height: nat, columns: map<string, seq<Cell>>)
      requires Shaped(columns, height)
      ensures Valid() && this.height == height && this.columns == columns
    {
      this.height := height;
      this.columns := columns;
    }
  }

  // ---------------------------------------------------------------------------
  // The encoded frame as a function of the input table
  // ---------------------------------------------------------------------------

  predicate AllNumbers(cells: seq<Cell>) {
    forall i :: 0 <= i < |cells| ==> cells[i].Number?
  }

  function Numbers(cells: seq<Cell>): (r: seq<real>)
    requires AllNumbers(cells)
    ensures |r| == |cells| && forall i :: 0 <= i < |cells| ==> r[i] == cells[i].x
  {
    seq(|cells|, i requires 0 <= i < |cells| => cells[i].x)
  }

  /** The vocabularies of `cols`, in that order. */
  function VocabsOf(vocab: map<string, seq<string>>, cols: seq<string>): (r: seq<seq<string>>)
    requires forall c :: c in cols ==> c in vocab
    ensures |r| == |cols| && forall k :: 0 <= k < |cols| ==> r[k] == vocab[cols[k]]
  {
    seq(|cols|, k requires 0 <= k < |cols| => vocab[cols[k]])
  }

  /** Record `i`'s cleaned tokens in each of `cols`. */
  function RowTokens(t: map<string, seq<Cell>>, cols: seq<string>, i: nat): (r: seq<seq<string>>)
    requires forall c :: c in cols ==> c in t && i < |t[c]|
    ensures |r| == |cols| && forall k :: 0 <= k < |cols| ==> r[k] == CleanSplit(t[cols[k]][i])
  {
    seq(|cols|, k requires 0 <= k < |cols| => CleanSplit(t[cols[k]][i]))
  }

  /** Record `i`'s values in each of `cols`. */
  function RowNumbers(t: map<string, seq<Cell>>, cols: seq<string>, i: nat): (r: seq<real>)
    requires forall c :: c in cols ==> c in t && AllNumbers(t[c]) && i < |t[c]|
    ensures |r| == |cols|
    ensures forall k :: 0 <= k < |cols| ==> r[k] == Numbers(t[cols[k]])[i]
  {
    seq(|cols|, k requires 0 <= k < |cols| => Numbers(t[cols[k]])[i])
  }

  /** The vectors of a frame's records under fitted vocabularies and bounds. */
  function Encoded(vocab: map<string, seq<string>>, bs: seq<Bounds>, mh: seq<string>, nc: seq<string>,
                   t: map<string, seq<Cell>>, h: nat): (r: seq<seq<real>>)
    requires Shaped(t, h)
    requires forall c :: c in mh ==> c in t && c in vocab
    requires forall c :: c in nc ==> c in t && AllNumbers(t[c])
    requires |bs| == |nc|
    ensures |r| == h
    ensures forall i :: 0 <= i < h ==> |r[i]| == Width(VocabsOf(vocab, mh)) + |nc|
  {
    seq(h, i requires 0 <= i < h => EncodeRow(VocabsOf(vocab, mh), RowTokens(t, mh, i), bs, RowNumbers(t, nc, i)))
  }

  /** The scaler `fit` on the numeric columns: their minima and maxima. */
  function FitScaler(t: map<string, seq<Cell>>, nc: seq<string>): (r: seq<Bounds>)
    requires forall c :: c in nc ==> c in t && |t[c]| > 0 && AllNumbers(t[c])
    ensures |r| == |nc| && forall m :: 0 <= m < |nc| ==> r[m].lo <= r[m].hi
  {
    seq(|nc|, m requires 0 <= m < |nc| => FitBounds(Numbers(t[nc[m]])))
  }

  /** The frame after `df[col] = df[col].apply(clean_split)` for every `col` of `mh`. */
  function CleanedTable(t: map<string, seq<Cell>>, mh: seq<string>): (r: map<string, seq<Cell>>)
    ensures r.Keys == t.Keys
    ensures forall c :: c in t ==> r[c] == if c in mh then CleanedCells(t[c]) else t[c]
  {
    map c | c in t :: if c in mh then CleanedCells(t[c]) else t[c]
  }

  function ScaledColumn(cells: seq<Cell>, b: Bounds): (r: seq<Cell>)
    requires AllNumbers(cells)
    ensures |r| == |cells|
    ensures forall i :: 0 <= i < |cells| ==> r[i] == Number(Scale(cells[i].x, b))
  {
    seq(|cells|, i requires 0 <= i < |cells| => Number(Scale(cells[i].x, b)))
  }

  /** The position of the last occurrence of `c` in `names`: the write to
      column `c` that `df[names] = ...` leaves in place. */
  function LastIndex(names: seq<string>, c: string): (k: nat)
    requires c in names
    ensures k < |names| && names[k] == c
    ensures forall j :: k < j < |names| ==> names[j] != c
    decreases |names|
  {
    var n := |names| - 1;
    if names[n] == c then n
    else
      assert c in names[..n] by {
        var j :| 0 <= j < |names| && names[j] == c;
        assert names[..n][j] == c;
      }
      LastIndex(names[..n], c)
  }

  /** The frame after `df[numeric_cols] = scaler.transform(df[numeric_cols])`. */
  function ScaledTable(t: map<string, seq<Cell>>, nc: seq<string>, bs: seq<Bounds>): (r: map<string, seq<Cell>>)
    requires |bs| == |nc|
    requires forall c :: c in nc ==> c in t && AllNumbers(t[c])
    ensures r.Keys == t.Keys
    ensures forall c :: c in t ==> |r[c]| == |t[c]|
    ensures forall c :: c in t && c !in nc ==> r[c] == t[c]
    ensures forall c :: c in nc ==> r[c] == ScaledColumn(t[c], bs[LastIndex(nc, c)])
    decreases |nc|
  {
    if nc == [] then t
    else
      var n := |nc| - 1;
      var prev := ScaledTable(t, nc[..n], bs[..n]);
      var r := prev[nc[n] := ScaledColumn(t[nc[n]], bs[n])];
      assert forall c :: c in nc ==> r[c] == ScaledColumn(t[c], bs[LastIndex(nc, c)]) by {
        forall c | c in nc ensures r[c] == ScaledColumn(t[c], bs[LastIndex(nc, c)]) {
          if c != nc[n] {
            var j :| 0 <= j < |nc| && nc[j] == c;
            assert nc[..n][j] == c;
            assert LastIndex(nc, c) == LastIndex(nc[..n], c);
          }
        }
      }
      r
  }

  /** When `fit_transform` succeeds: every column is present, the numeric
      columns hold numbers and are not also categorical (cleaning would have
      turned them into lists), and there is a record and a numeric column. */
  predicate FitOk(mh: seq<string>, nc: seq<string>, t: map<string, seq<Cell>>, h: nat) {
    && (forall c :: c in mh ==> c in t)
    && (forall c :: c in nc ==> c in t && c !in mh && AllNumbers(t[c]))
    && h > 0
    && |nc| > 0
  }

  /** When `transform` succeeds: every column is present, every categorical
      column has been fitted, the scaler has been fitted, the numeric columns
      hold numbers, and there is a record. */
  predicate TransformOk(vocab: map<string, seq<string>>, scaler: Option<seq<Bounds>>, mh: seq<string>,
                        nc: seq<string>, t: map<string, seq<Cell>>, h: nat) {
    && (forall c :: c in mh ==> c in t && c in vocab)
    && (forall c :: c in nc ==> c in t && AllNumbers(t[c]))
    && scaler.Some?
    && h > 0
  }

  // ---------------------------------------------------------------------------
  // Properties of the encoded frame
  // ---------------------------------------------------------------------------

  lemma TakeSnoc(s: seq<string>, k: nat)
    requires k < |s|
    ensures s[..k + 1] == s[..k] + [s[k]]
  {
  }

  lemma VocabsSnoc(vocab: map<string, seq<string>>, mh: seq<string>, k: nat)
    requires k < |mh| && forall c :: c in mh[..k + 1] ==> c in vocab
    ensures VocabsOf(vocab, mh[..k + 1]) == VocabsOf(vocab, mh[..k]) + [vocab[mh[k]]]
  {
    TakeSnoc(mh, k);
  }

  lemma BlocksSnoc(vs: seq<seq<string>>, ts: seq<seq<string>>, v: seq<string>, t: seq<string>)
    requires |vs| == |ts|
    ensures Blocks(vs + [v], ts + [t]) == Blocks(vs, ts) + Block(v, t)
  {
    assert (vs + [v])[..|vs|] == vs;
    assert (ts + [t])[..|ts|] == ts;
  }

  /** The frame once the first `k` categorical columns have been cleaned in place. */
  predicate CleanedUpTo(t0: map<string, seq<Cell>>, cur: map<string, seq<Cell>>, mh: seq<string>, k: nat)
  {
    && k <= |mh|
    && cur.Keys == t0.Keys
    && (forall c :: c in mh[..k] ==> c in t0)
    && (forall c :: c in cur ==> cur[c] == if c in mh[..k] then CleanedCells(t0[c]) else t0[c])
  }

  lemma CleanedCellsIdempotent(cells: seq<Cell>)
    ensures CleanedCells(CleanedCells(cells)) == CleanedCells(cells)
  {
    forall i | 0 <= i < |cells| ensures CleanSplit(CleanedCells(cells)[i]) == CleanSplit(cells[i]) {
      CleanSplitIdempotent(cells[i]);
    }
  }

  /** Cleaning the next categorical column in place; a column named twice is
      cleaned twice, which changes nothing. */
  lemma CleanStep(t0: map<string, seq<Cell>>, cur: map<string, seq<Cell>>, mh: seq<string>, k: nat)
    requires k < |mh| && CleanedUpTo(t0, cur, mh, k) && mh[k] in cur
    ensures CleanedUpTo(t0, cur[mh[k] := CleanedCells(cur[mh[k]])], mh, k + 1)
    ensures CleanColumn(cur[mh[k]]) == CleanColumn(t0[mh[k]])
  {
    var col := mh[k];
    CleanedColumnTokens(t0[col], cur[col]);
    CleanedCellsIdempotent(t0[col]);
    assert CleanedCells(cur[col]) == CleanedCells(t0[col]);
    assert mh[..k + 1] == mh[..k] + [col];
  }

  lemma CleanedAll(t0: map<string, seq<Cell>>, cur: map<string, seq<Cell>>, mh: seq<string>)
    requires CleanedUpTo(t0, cur, mh, |mh|)
    ensures cur == CleanedTable(t0, mh)
  {
    assert mh[..|mh|] == mh;
  }

  /** A frame cleaned up to `k` is the frame with the first `k` categorical
      columns cleaned. */
  lemma CleanedPrefix(t0: map<string, seq<Cell>>, cur: map<string, seq<Cell>>, mh: seq<string>, k: nat)
    requires CleanedUpTo(t0, cur, mh, k)
    ensures cur == CleanedTable(t0, mh[..k])
  {
  }

  lemma RowTokensSnoc(t: map<string, seq<Cell>>, mh: seq<string>, k: nat, i: nat)
    requires k < |mh|
    requires forall c :: c in mh[..k + 1] ==> c in t && i < |t[c]|
    ensures RowTokens(t, mh[..k + 1], i) == RowTokens(t, mh[..k], i) + [CleanSplit(t[mh[k]][i])]
  {
    assert mh[..k + 1] == mh[..k] + [mh[k]];
  }

  /** Encoding one more categorical column appends its block to every record. */
  lemma CategoricalStep(t: map<string, seq<Cell>>, mh: seq<string>, k: nat, vs: seq<seq<string>>, v: seq<string>, h: nat, i: nat)
    requires k < |mh| && |vs| == k && Shaped(t, h) && i < h
    requires forall c :: c in mh[..k + 1] ==> c in t
    ensures Blocks(vs + [v], RowTokens(t, mh[..k + 1], i)) == Blocks(vs, RowTokens(t, mh[..k], i)) + Block(v, CleanSplit(t[mh[k]][i]))
  {
    RowTokensSnoc(t, mh, k, i);
    BlocksSnoc(vs, RowTokens(t, mh[..k], i), v, CleanSplit(t[mh[k]][i]));
  }

  /** Every vocabulary is an old one or was fitted on its column of `t0`. */
  ghost predicate Provenance(vocab: map<string, seq<string>>, v0: map<string, seq<string>>,
                             t0: map<string, seq<Cell>>, mh: seq<string>)
  {
    forall c :: c in vocab ==>
      || (c in v0 && vocab[c] == v0[c])
      || (c in mh && c in t0 && vocab[c] == FitVocabulary(CleanColumn(t0[c])))
  }

  /** `mlb_dict` once the columns `cols` of `t0` have been fitted in order,
      starting from `v0`: those columns hold their fitted vocabularies and
      every other entry is as it was. */
  function Refitted(v0: map<string, seq<string>>, t0: map<string, seq<Cell>>, cols: seq<string>): (r: map<string, seq<string>>)
    requires forall c :: c in cols ==> c in t0
    ensures forall c :: c in r <==> c in v0 || c in cols
  {
    map c | c in v0.Keys + (set x | x in cols) :: if c in cols then FitVocabulary(CleanColumn(t0[c])) else v0[c]
  }

  /** Every categorical column has the vocabulary fitted on its cleaned tokens. */
  ghost predicate AllFitted(vocab: map<string, seq<string>>, t0: map<string, seq<Cell>>, mh: seq<string>) {
    forall c :: c in mh ==> c in t0 && c in vocab && vocab[c] == FitVocabulary(CleanColumn(t0[c]))
  }

  /** After fitting the first `k` categorical columns: each has its
      vocabulary, `vs` lists them in column order, and every other entry of
      `vocab` is one it had before (`v0`) or a fitted one. */
  ghost predicate FittedUpTo(vocab: map<string, seq<string>>, v0: map<string, seq<string>>, vs: seq<seq<string>>,
                             t0: map<string, seq<Cell>>, mh: seq<string>, k: nat)
  {
    && k <= |mh|
    && (forall c :: c in mh[..k] ==> c in t0 && c in vocab && vocab[c] == FitVocabulary(CleanColumn(t0[c])))
    && Provenance(vocab, v0, t0, mh)
    && vocab == Refitted(v0, t0, mh[..k])
    && |vs| == k
    && (forall j :: 0 <= j < k ==> mh[j] in t0 && vs[j] == FitVocabulary(CleanColumn(t0[mh[j]])))
  }

  lemma FittedStep(vocab: map<string, seq<string>>, v0: map<string, seq<string>>, vs: seq<seq<string>>,
                   t0: map<string, seq<Cell>>, mh: seq<string>, k: nat)
    requires k < |mh| && mh[k] in t0 && FittedUpTo(vocab, v0, vs, t0, mh, k)
    ensures FittedUpTo(vocab[mh[k] := FitVocabulary(CleanColumn(t0[mh[k]]))], v0,
                       vs + [FitVocabulary(CleanColumn(t0[mh[k]]))], t0, mh, k + 1)
  {
    var col := mh[k];
    var v := FitVocabulary(CleanColumn(t0[col]));
    var vocab1 := vocab[col := v];
    var vs1 := vs + [v];
    TakeSnoc(mh, k);
    forall c | c in mh[..k + 1] ensures c in t0 && c in vocab1 && vocab1[c] == FitVocabulary(CleanColumn(t0[c])) {
      if c != col {
        assert c in mh[..k];
      }
    }
    forall j | 0 <= j < k + 1 ensures mh[j] in t0 && vs1[j] == FitVocabulary(CleanColumn(t0[mh[j]])) {
      if j < k {
        assert vs1[j] == vs[j];
      }
    }
    assert Provenance(vocab1, v0, t0, mh) by {
      assert col in mh;
    }
    RefittedSnoc(v0, t0, mh, k);
  }

  /** Fitting no column changes nothing. */
  lemma RefittedNone(v0: map<string, seq<string>>, t0: map<string, seq<Cell>>, mh: seq<string>)
    ensures Refitted(v0, t0, mh[..0]) == v0
  {
    assert mh[..0] == [];
  }

  /** Fitting one more column stores its vocabulary under its name. */
  lemma RefittedSnoc(v0: map<string, seq<string>>, t0: map<string, seq<Cell>>, mh: seq<string>, k: nat)
    requires k < |mh| && forall c :: c in mh[..k + 1] ==> c in t0
    ensures forall c :: c in mh[..k] ==> c in t0
    ensures Refitted(v0, t0, mh[..k + 1]) == Refitted(v0, t0, mh[..k])[mh[k] := FitVocabulary(CleanColumn(t0[mh[k]]))]
  {
    TakeSnoc(mh, k);
    assert forall c :: c in mh[..k + 1] <==> c in mh[..k] || c == mh[k];
  }

  lemma FittedAll(vocab: map<string, seq<string>>, v0: map<string, seq<string>>, vs: seq<seq<string>>,
                  t0: map<string, seq<Cell>>, mh: seq<string>)
    requires FittedUpTo(vocab, v0, vs, t0, mh, |mh|)
    ensures AllFitted(vocab, t0, mh) && Provenance(vocab, v0, t0, mh)
    ensures vs == VocabsOf(vocab, mh)
  {
    assert mh[..|mh|] == mh;
    forall j | 0 <= j < |mh| ensures vs[j] == vocab[mh[j]] {
      assert mh[j] in mh[..|mh|];
    }
  }

  lemma FittedValidIf(vocab: map<string, seq<string>>, v0: map<string, seq<string>>, vs: seq<seq<string>>,
                      t0: map<string, seq<Cell>>, mh: seq<string>, k: nat)
    requires FittedUpTo(vocab, v0, vs, t0, mh, k)
    ensures Provenance(vocab, v0, t0, mh)
    ensures (forall c :: c in v0 ==> ValidVocab(v0[c])) ==> forall c :: c in vocab ==> ValidVocab(vocab[c])
  {
    if forall c :: c in v0 ==> ValidVocab(v0[c]) {
      FittedValid(vocab, v0, vs, t0, mh, k);
    }
  }

  /** Every vocabulary is valid after fitting, given that the old ones were. */
  lemma FittedValid(vocab: map<string, seq<string>>, v0: map<string, seq<string>>, vs: seq<seq<string>>,
                    t0: map<string, seq<Cell>>, mh: seq<string>, k: nat)
    requires FittedUpTo(vocab, v0, vs, t0, mh, k)
    requires forall c :: c in v0 ==> ValidVocab(v0[c])
    ensures forall c :: c in vocab ==> ValidVocab(vocab[c])
  {
    forall c | c in vocab && !(c in v0 && vocab[c] == v0[c]) ensures ValidVocab(vocab[c]) {
      VocabularyValid(CleanColumn(t0[c]));
    }
  }

  /** Every record's vector so far: the blocks of the first `k` categorical columns. */
  ghost predicate BlocksUpTo(out: seq<seq<real>>, vs: seq<seq<string>>, t0: map<string, seq<Cell>>,
                             mh: seq<string>, k: nat, h: nat)
  {
    && k <= |mh|
    && Shaped(t0, h)
    && |vs| == k
    && (forall c :: c in mh[..k] ==> c in t0)
    && |out| == h
    && forall i :: 0 <= i < h ==> out[i] == Blocks(vs, RowTokens(t0, mh[..k], i))
  }

  /** Each record's vector extended by its block for one more column. */
  function AppendBlock(out: seq<seq<real>>, v: seq<string>, tokens: seq<seq<string>>): (r: seq<seq<real>>)
    requires |tokens| == |out|
    ensures |r| == |out| && forall i :: 0 <= i < |out| ==> r[i] == out[i] + Block(v, tokens[i])
  {
    seq(|out|, i requires 0 <= i < |out| => out[i] + Block(v, tokens[i]))
  }

  lemma BlocksStep(out: seq<seq<real>>, vs: seq<seq<string>>, t0: map<string, seq<Cell>>,
                   mh: seq<string>, k: nat, h: nat, v: seq<string>)
    requires k < |mh| && mh[k] in t0 && BlocksUpTo(out, vs, t0, mh, k, h)
    ensures BlocksUpTo(AppendBlock(out, v, CleanColumn(t0[mh[k]])), vs + [v], t0, mh, k + 1, h)
  {
    assert mh[..k + 1] == mh[..k] + [mh[k]];
    forall i | 0 <= i < h
      ensures AppendBlock(out, v, CleanColumn(t0[mh[k]]))[i] == Blocks(vs + [v], RowTokens(t0, mh[..k + 1], i))
    {
      CategoricalStep(t0, mh, k, vs, v, h, i);
    }
  }

  /** Each record's vector extended by its scaled numeric values. */
  function AppendScaled(out: seq<seq<real>>, bs: seq<Bounds>, cols: map<string, seq<Cell>>, nc: seq<string>): (r: seq<seq<real>>)
    requires |bs| == |nc|
    requires forall c :: c in nc ==> c in cols && AllNumbers(cols[c]) && |cols[c]| == |out|
    ensures |r| == |out|
    ensures forall i :: 0 <= i < |out| ==> r[i] == out[i] + Scaled(bs, RowNumbers(cols, nc, i))
  {
    seq(|out|, i requires 0 <= i < |out| => out[i] + Scaled(bs, RowNumbers(cols, nc, i)))
  }

  /** All blocks followed by the scaled numbers of the cleaned frame are the
      encoded records of the original frame. */
  lemma FinishEncoded(vocab: map<string, seq<string>>, bs: seq<Bounds>, mh: seq<string>, nc: seq<string>,
                      t0: map<string, seq<Cell>>, h: nat, out: seq<seq<real>>)
    requires forall c :: c in mh ==> c in vocab
    requires BlocksUpTo(out, VocabsOf(vocab, mh), t0, mh, |mh|, h)
    requires forall c :: c in nc ==> c in t0 && c !in mh && AllNumbers(t0[c])
    requires |bs| == |nc|
    ensures forall c :: c in nc ==> c in CleanedTable(t0, mh) && AllNumbers(CleanedTable(t0, mh)[c])
    ensures AppendScaled(out, bs, CleanedTable(t0, mh), nc) == Encoded(vocab, bs, mh, nc, t0, h)
  {
    var cols := CleanedTable(t0, mh);
    assert mh[..|mh|] == mh;
    forall i | 0 <= i < h ensures RowNumbers(cols, nc, i) == RowNumbers(t0, nc, i) {
    }
  }

  /** What a failed run leaves in a frame: each column as it was, or a
      categorical column cleaned. */
  ghost predicate PartlyCleaned(t0: map<string, seq<Cell>>, cur: map<string, seq<Cell>>, mh: seq<string>) {
    && cur.Keys == t0.Keys
    && forall c :: c in cur ==> cur[c] == t0[c] || (c in mh && cur[c] == CleanedCells(t0[c]))
  }

  lemma CleanedPartly(t0: map<string, seq<Cell>>, cur: map<string, seq<Cell>>, mh: seq<string>, k: nat)
    requires k <= |mh| && CleanedUpTo(t0, cur, mh, k)
    ensures PartlyCleaned(t0, cur, mh)
  {
    forall c | c in cur && c in mh[..k] ensures c in mh {
      var j :| 0 <= j < k && mh[..k][j] == c;
      assert mh[j] == c;
    }
  }

  /** The position of the first of `names` not in `ok`, or `|names|` when
      there is none: how far a loop over `names` that stops there gets. */
  function FirstOutside(names: seq<string>, ok: set<string>): (k: nat)
    ensures k <= |names|
    ensures forall j :: 0 <= j < k ==> names[j] in ok
    ensures k < |names| ==> names[k] !in ok
    decreases |names|
  {
    if names == [] || names[0] !in ok then 0 else 1 + FirstOutside(names[1..], ok)
  }

  /** A position with every name before it in `ok` and itself outside is
      that first position. */
  lemma FirstOutsideAt(names: seq<string>, ok: set<string>, k: nat)
    requires k <= |names| && (forall c :: c in names[..k] ==> c in ok) && (k < |names| ==> names[k] !in ok)
    ensures FirstOutside(names, ok) == k
  {
  }

  /** The first of `names` that is not a column: the one `df[names]` reports. */
  function FirstMissing(t: map<string, seq<Cell>>, names: seq<string>): (r: Option<string>)
    ensures r.None? <==> forall c :: c in names ==> c in t
    ensures r.Some? ==> r.value in names && r.value !in t
    decreases |names|
  {
    if names == [] then None
    else if names[0] !in t then Some(names[0])
    else
      assert forall c :: c in names ==> c == names[0] || c in names[1..];
      FirstMissing(t, names[1..])
  }

  /** Which column is missing depends only on the column names. */
  lemma {:induction false} FirstMissingKeys(t: map<string, seq<Cell>>, u: map<string, seq<Cell>>, names: seq<string>)
    requires t.Keys == u.Keys
    ensures FirstMissing(t, names) == FirstMissing(u, names)
    decreases |names|
  {
    if names != [] {
      assert names[0] in t <==> names[0] in u;
      FirstMissingKeys(t, u, names[1..]);
    }
  }

  /** The first of `names` whose column holds a non-number: the one the
      scaler's input validation rejects. */
  function FirstNonNumeric(t: map<string, seq<Cell>>, names: seq<string>): (r: Option<string>)
    requires forall c :: c in names ==> c in t
    ensures r.None? <==> forall c :: c in names ==> AllNumbers(t[c])
    ensures r.Some? ==> r.value in names && !AllNumbers(t[r.value])
    decreases |names|
  {
    if names == [] then None
    else if !AllNumbers(t[names[0]]) then Some(names[0])
    else
      assert forall c :: c in names ==> c == names[0] || c in names[1..];
      FirstNonNumeric(t, names[1..])
  }

  /** Once the categorical columns are cleaned into token lists, a numeric
      column holding only numbers in a non-empty frame was not one of them,
      and so it still holds its original cells. */
  lemma NumericUntouched(t0: map<string, seq<Cell>>, mh: seq<string>, nc: seq<string>, h: nat)
    requires Shaped(t0, h) && h > 0
    requires forall c :: c in nc ==> c in t0 && AllNumbers(CleanedTable(t0, mh)[c])
    ensures forall c :: c in nc ==> c !in mh && CleanedTable(t0, mh)[c] == t0[c]
  {
    forall c | c in nc ensures c !in mh {
      assert CleanedTable(t0, mh)[c][0].Number?;
    }
  }

  /** The state of the categorical loop of `fit_transform` after `k` columns:
      the working frame `cols`, the vocabularies `fitted` (they were `v0`),
      the vocabularies `vs` fitted so far in order, and the partial vectors. */
  ghost predicate FitLoop(t0: map<string, seq<Cell>>, v0: map<string, seq<string>>, mh: seq<string>, k: nat, h: nat,
                          cols: map<string, seq<Cell>>, fitted: map<string, seq<string>>, vs: seq<seq<string>>,
                          out: seq<seq<real>>)
  {
    && Shaped(cols, h)
    && CleanedUpTo(t0, cols, mh, k)
    && FittedUpTo(fitted, v0, vs, t0, mh, k)
    && BlocksUpTo(out, vs, t0, mh, k, h)
  }

  /** One turn of that loop: column `mh[k]` is cleaned in place, its
      vocabulary is fitted, and every record gets its block. */
  method FitColumn(ghost t0: map<string, seq<Cell>>, ghost v0: map<string, seq<string>>, mh: seq<string>, k: nat, h: nat,
                   cols: map<string, seq<Cell>>, fitted: map<string, seq<string>>, ghost vs: seq<seq<string>>,
                   out: seq<seq<real>>)
    returns (cols1: map<string, seq<Cell>>, fitted1: map<string, seq<string>>, ghost vs1: seq<seq<string>>,
             out1: seq<seq<real>>, err: Option<Error>)
    requires k < |mh|
    requires FitLoop(t0, v0, mh, k, h, cols, fitted, vs, out)
    ensures err == if mh[k] !in t0 then Some(MissingColumn(mh[k])) else None
    ensures err.None? ==> FitLoop(t0, v0, mh, k + 1, h, cols1, fitted1, vs1, out1)
    ensures err.Some? ==> Shaped(cols1, h) && PartlyCleaned(t0, cols1, mh) && FittedUpTo(fitted1, v0, vs1, t0, mh, k)
    ensures err.Some? ==> !forall c :: c in mh ==> c in t0
    ensures err.Some? ==> cols1 == cols && fitted1 == fitted && vs1 == vs && out1 == out
  {
    var col := mh[k];
    assert col in mh;
    if col !in cols {
      CleanedPartly(t0, cols, mh, k);
      return cols, fitted, vs, out, Some(MissingColumn(col));
    }
    err := None;
    var tokens := CleanColumn(cols[col]);
    var v := FitVocabulary(tokens);
    cols1 := cols[col := CleanedCells(cols[col])];
    fitted1 := fitted[col := v];
    out1 := AppendBlock(out, v, tokens);
    vs1 := vs + [v];
    assert tokens == CleanColumn(t0[col]) && CleanedUpTo(t0, cols1, mh, k + 1) by {
      CleanStep(t0, cols, mh, k);
    }
    assert Shaped(cols1, h);
    assert FittedUpTo(fitted1, v0, vs1, t0, mh, k + 1) by {
      FittedStep(fitted, v0, vs, t0, mh, k);
    }
    assert BlocksUpTo(out1, vs1, t0, mh, k + 1, h) by {
      BlocksStep(out, vs, t0, mh, k, h, v);
    }
  }

  lemma FitLoopDone(t0: map<string, seq<Cell>>, v0: map<string, seq<string>>, mh: seq<string>, h: nat,
                    cols: map<string, seq<Cell>>, fitted: map<string, seq<string>>, vs: seq<seq<string>>,
                    out: seq<seq<real>>)
    requires FitLoop(t0, v0, mh, |mh|, h, cols, fitted, vs, out)
    ensures forall c :: c in mh ==> c in t0
    ensures AllFitted(fitted, t0, mh)
    ensures cols == CleanedTable(t0, mh)
    ensures BlocksUpTo(out, VocabsOf(fitted, mh), t0, mh, |mh|, h)
    ensures FitReached(t0, v0, mh, cols, fitted)
  {
    CleanedAll(t0, cols, mh);
    FittedAll(fitted, v0, vs, t0, mh);
    FirstOutsideAt(mh, t0.Keys, |mh|);
    assert mh[..|mh|] == mh;
  }

  /** What the categorical loop of `fit_transform` leaves behind: the
      columns before the first missing one are cleaned and have their
      vocabularies, and nothing else has changed. */
  ghost predicate FitReached(t0: map<string, seq<Cell>>, v0: map<string, seq<string>>, mh: seq<string>,
                             cols: map<string, seq<Cell>>, fitted: map<string, seq<string>>)
  {
    && cols == CleanedTable(t0, mh[..FirstOutside(mh, t0.Keys)])
    && fitted == Refitted(v0, t0, mh[..FirstOutside(mh, t0.Keys)])
  }

  /** The loop stops at the first missing column, with the state it had. */
  lemma FitStop(t0: map<string, seq<Cell>>, v0: map<string, seq<string>>, mh: seq<string>, k: nat, h: nat,
                cols: map<string, seq<Cell>>, fitted: map<string, seq<string>>, vs: seq<seq<string>>,
                out: seq<seq<real>>)
    requires k < |mh| && mh[k] !in t0 && FitLoop(t0, v0, mh, k, h, cols, fitted, vs, out)
    ensures FirstOutside(mh, t0.Keys) == k
    ensures FitReached(t0, v0, mh, cols, fitted)
  {
    CleanedPrefix(t0, cols, mh, k);
    FirstOutsideAt(mh, t0.Keys, k);
  }

  /** The categorical loop of `fit_transform` on the frame's columns `t0` and
      the vocabularies `v0` fitted before: each column of `mh` in turn is
      cleaned, gets a fitted vocabulary, and every record gets its block,
      until a column is missing. */
  method FitColumns(t0: map<string, seq<Cell>>, v0: map<string, seq<string>>, mh: seq<string>, h: nat)
    returns (cols: map<string, seq<Cell>>, fitted: map<string, seq<string>>, out: seq<seq<real>>, err: Option<Error>)
    requires Shaped(t0, h)
    ensures Shaped(cols, h)
    ensures err.None? <==> forall c :: c in mh ==> c in t0
    ensures Provenance(fitted, v0, t0, mh)
    ensures (forall c :: c in v0 ==> ValidVocab(v0[c])) ==> forall c :: c in fitted ==> ValidVocab(fitted[c])
    ensures err.None? ==>
              && AllFitted(fitted, t0, mh)
              && cols == CleanedTable(t0, mh)
              && BlocksUpTo(out, VocabsOf(fitted, mh), t0, mh, |mh|, h)
    ensures err.Some? ==> PartlyCleaned(t0, cols, mh)
    ensures FitReached(t0, v0, mh, cols, fitted)
    ensures err.Some? ==> FirstOutside(mh, t0.Keys) < |mh| && err.value == MissingColumn(mh[FirstOutside(mh, t0.Keys)])
  {
    cols := t0;
    fitted := v0;
    ghost var vs: seq<seq<string>> := [];
    out := seq(h, i => []);
    RefittedNone(v0, t0, mh);
    var k := 0;
    while k < |mh|
      invariant FitLoop(t0, v0, mh, k, h, cols, fitted, vs, out)
    {
      cols, fitted, vs, out, err := FitColumn(t0, v0, mh, k, h, cols, fitted, vs, out);
      if err.Some? {
        FittedValidIf(fitted, v0, vs, t0, mh, k);
        FitStop(t0, v0, mh, k, h, cols, fitted, vs, out);
        return;
      }
      k := k + 1;
    }
    err := None;
    FitLoopDone(t0, v0, mh, h, cols, fitted, vs, out);
    FittedValidIf(fitted, v0, vs, t0, mh, |mh|);
  }

  /** The state of the categorical loop of `transform` after `k` columns. */
  ghost predicate TransformLoop(t0: map<string, seq<Cell>>, vocab: map<string, seq<string>>, mh: seq<string>, k: nat,
                                h: nat, cols: map<string, seq<Cell>>, out: seq<seq<real>>)
  {
    && Shaped(cols, h)
    && CleanedUpTo(t0, cols, mh, k)
    && (forall c :: c in mh[..k] ==> c in vocab)
    && BlocksUpTo(out, VocabsOf(vocab, mh[..k]), t0, mh, k, h)
  }

  /** One turn of that loop, once column `mh[k]` is known to be fitted. */
  method TransformColumn(ghost t0: map<string, seq<Cell>>, vocab: map<string, seq<string>>, mh: seq<string>, k: nat,
                         h: nat, cols: map<string, seq<Cell>>, out: seq<seq<real>>)
    returns (cols1: map<string, seq<Cell>>, out1: seq<seq<real>>, err: Option<Error>)
    requires k < |mh|
    requires TransformLoop(t0, vocab, mh, k, h, cols, out)
    ensures err == if mh[k] !in t0 then Some(MissingColumn(mh[k]))
                   else if mh[k] !in vocab then Some(NotFitted(mh[k]))
                   else None
    ensures err.None? ==> TransformLoop(t0, vocab, mh, k + 1, h, cols1, out1)
    ensures err.Some? ==> Shaped(cols1, h) && PartlyCleaned(t0, cols1, mh)
    ensures err.Some? ==> !forall c :: c in mh ==> c in t0 && c in vocab
    ensures err.Some? ==> CleanedUpTo(t0, cols1, mh, if mh[k] in t0 then k + 1 else k)
  {
    var col := mh[k];
    assert col in mh;
    if col !in cols {
      CleanedPartly(t0, cols, mh, k);
      return cols, out, Some(MissingColumn(col));
    }
    if col !in vocab {
      CleanStep(t0, cols, mh, k);
      CleanedPartly(t0, cols[col := CleanedCells(cols[col])], mh, k + 1);
      return cols[col := CleanedCells(cols[col])], out, Some(NotFitted(col));
    }
    err := None;
    var tokens := CleanColumn(cols[col]);
    var v := vocab[col];
    cols1 := cols[col := CleanedCells(cols[col])];
    out1 := AppendBlock(out, v, tokens);
    assert tokens == CleanColumn(t0[col]) && CleanedUpTo(t0, cols1, mh, k + 1) by {
      CleanStep(t0, cols, mh, k);
    }
    assert Shaped(cols1, h);
    assert forall c :: c in mh[..k + 1] ==> c in vocab by {
      TakeSnoc(mh, k);
    }
    assert BlocksUpTo(out1, VocabsOf(vocab, mh[..k + 1]), t0, mh, k + 1, h) by {
      BlocksStep(out, VocabsOf(vocab, mh[..k]), t0, mh, k, h, v);
      VocabsSnoc(vocab, mh, k);
    }
  }

  /** The numeric columns the scaler `fit` accepts: present, all numbers,
      in a frame with a record and at least one numeric column. */
  predicate NumericOk(nc: seq<string>, t: map<string, seq<Cell>>, h: nat) {
    && (forall c :: c in nc ==> c in t && AllNumbers(t[c]))
    && h > 0
    && |nc| > 0
  }

  predicate NoNumbers(cells: seq<Cell>) {
    forall i :: 0 <= i < |cells| ==> !cells[i].Number?
  }

  /** Cleaned categorical columns hold token lists, never numbers. */
  lemma CleanedNoNumbers(t0: map<string, seq<Cell>>, mh: seq<string>)
    requires forall c :: c in mh ==> c in t0
    ensures forall c :: c in mh ==> NoNumbers(CleanedTable(t0, mh)[c])
  {
    forall c | c in mh ensures NoNumbers(CleanedTable(t0, mh)[c]) {
      assert CleanedTable(t0, mh)[c] == CleanedCells(t0[c]);
    }
  }

  lemma TransformLoopDone(t0: map<string, seq<Cell>>, vocab: map<string, seq<string>>, mh: seq<string>, h: nat,
                          cols: map<string, seq<Cell>>, out: seq<seq<real>>)
    requires TransformLoop(t0, vocab, mh, |mh|, h, cols, out)
    ensures forall c :: c in mh ==> c in t0 && c in vocab
    ensures cols == CleanedTable(t0, mh)
    ensures BlocksUpTo(out, VocabsOf(vocab, mh), t0, mh, |mh|, h)
    ensures TransformReach(t0, vocab, mh) == |mh|
    ensures TransformReached(t0, vocab, mh, cols, None)
  {
    assert mh[..|mh|] == mh;
    CleanedAll(t0, cols, mh);
    FirstOutsideAt(mh, t0.Keys * vocab.Keys, |mh|);
  }

  /** How many categorical columns `transform` cleans: those before the
      first missing or unfitted one, and that one too when it is present,
      since a column is cleaned before its binarizer is looked up. */
  function TransformReach(t0: map<string, seq<Cell>>, vocab: map<string, seq<string>>, mh: seq<string>): (n: nat)
    ensures n <= |mh|
  {
    var k := FirstOutside(mh, t0.Keys * vocab.Keys);
    if k < |mh| && mh[k] in t0 then k + 1 else k
  }

  /** What the categorical loop of `transform` leaves behind: the columns
      it reached are cleaned, and a failure names the first missing or
      unfitted column. */
  ghost predicate TransformReached(t0: map<string, seq<Cell>>, vocab: map<string, seq<string>>, mh: seq<string>,
                                   cols: map<string, seq<Cell>>, err: Option<Error>)
  {
    && cols == CleanedTable(t0, mh[..TransformReach(t0, vocab, mh)])
    && (err.Some? ==>
          var k := FirstOutside(mh, t0.Keys * vocab.Keys);
          k < |mh| && err.value == if mh[k] !in t0 then MissingColumn(mh[k]) else NotFitted(mh[k]))
  }

  /** The loop stops at the first missing or unfitted column. */
  lemma TransformStop(t0: map<string, seq<Cell>>, vocab: map<string, seq<string>>, mh: seq<string>, k: nat,
                      cols: map<string, seq<Cell>>, err: Option<Error>)
    requires k < |mh| && (mh[k] !in t0 || mh[k] !in vocab)
    requires forall c :: c in mh[..k] ==> c in t0 && c in vocab
    requires CleanedUpTo(t0, cols, mh, if mh[k] in t0 then k + 1 else k)
    requires err == if mh[k] !in t0 then Some(MissingColumn(mh[k])) else Some(NotFitted(mh[k]))
    ensures FirstOutside(mh, t0.Keys * vocab.Keys) == k
    ensures TransformReached(t0, vocab, mh, cols, err)
  {
    FirstOutsideAt(mh, t0.Keys * vocab.Keys, k);
    var n := if mh[k] in t0 then k + 1 else k;
    assert TransformReach(t0, vocab, mh) == n;
    CleanedPrefix(t0, cols, mh, n);
  }

  /** The categorical loop of `transform` on the frame's columns `t0`: each
      column of `mh` in turn is cleaned and every record gets its block under
      the fitted vocabulary, until a column is missing or not fitted. */
  method TransformColumns(t0: map<string, seq<Cell>>, vocab: map<string, seq<string>>, mh: seq<string>, h: nat)
    returns (cols: map<string, seq<Cell>>, out: seq<seq<real>>, err: Option<Error>)
    requires Shaped(t0, h)
    ensures Shaped(cols, h)
    ensures err.None? <==> forall c :: c in mh ==> c in t0 && c in vocab
    ensures err.None? ==>
              && cols == CleanedTable(t0, mh)
              && BlocksUpTo(out, VocabsOf(vocab, mh), t0, mh, |mh|, h)
    ensures err.Some? ==> PartlyCleaned(t0, cols, mh)
    ensures TransformReached(t0, vocab, mh, cols, err)
  {
    cols := t0;
    out := seq(h, i => []);
    var k := 0;
    while k < |mh|
      invariant TransformLoop(t0, vocab, mh, k, h, cols, out)
    {
      cols, out, err := TransformColumn(t0, vocab, mh, k, h, cols, out);
      if err.Some? {
        TransformStop(t0, vocab, mh, k, cols, err);
        return;
      }
      k := k + 1;
    }
    err := None;
    TransformLoopDone(t0, vocab, mh, h, cols, out);
  }

  /** `fit_transform` succeeds exactly when, once the categorical columns are
      cleaned, the numeric checks pass; the scaler is then the one fitted on
      the original numeric columns, which cleaning leaves alone. */
  lemma FitOkCleaned(t0: map<string, seq<Cell>>, mh: seq<string>, nc: seq<string>, h: nat)
    requires Shaped(t0, h) && forall c :: c in mh ==> c in t0
    ensures FitOk(mh, nc, t0, h) <==> NumericOk(nc, CleanedTable(t0, mh), h)
    ensures FitOk(mh, nc, t0, h) ==> FitScaler(CleanedTable(t0, mh), nc) == FitScaler(t0, nc)
  {
    var cols := CleanedTable(t0, mh);
    if NumericOk(nc, cols, h) {
      NumericUntouched(t0, mh, nc, h);
    }
    if FitOk(mh, nc, t0, h) {
      assert forall c :: c in nc ==> cols[c] == t0[c];
    }
  }

  /** `transform` succeeds exactly when, once the categorical columns are
      cleaned, its numeric checks pass in the order the source makes them. */
  lemma TransformOkCases(t0: map<string, seq<Cell>>, cols: map<string, seq<Cell>>, vocab: map<string, seq<string>>,
                         scaler: Option<seq<Bounds>>, mh: seq<string>, nc: seq<string>, h: nat)
    requires Shaped(t0, h) && (forall c :: c in mh ==> c in t0 && c in vocab) && cols == CleanedTable(t0, mh)
    requires scaler.Some? ==> forall c :: c in nc ==> c !in mh
    ensures TransformOk(vocab, scaler, mh, nc, t0, h) <==>
              FirstMissing(cols, nc).None? && scaler.Some? && FirstNonNumeric(cols, nc).None? && h > 0
  {
  }

  /** The cleaned frame is one a failed run may leave behind. */
  lemma CleanedTablePartly(t0: map<string, seq<Cell>>, mh: seq<string>)
    ensures PartlyCleaned(t0, CleanedTable(t0, mh), mh)
  {
  }

  /** Record `i`'s block entry for token `j` of categorical column `k` is 1
      exactly when the record's cleaned cell holds that token. */
  lemma EncodedBlockEntry(vocab: map<string, seq<string>>, bs: seq<Bounds>, mh: seq<string>, nc: seq<string>,
                          t: map<string, seq<Cell>>, h: nat, i: int, k: int, j: int)
    requires Shaped(t, h)
    requires forall c :: c in mh ==> c in t && c in vocab
    requires forall c :: c in nc ==> c in t && AllNumbers(t[c])
    requires |bs| == |nc|
    requires 0 <= i < h && 0 <= k < |mh| && 0 <= j < |vocab[mh[k]]|
    ensures Width(VocabsOf(vocab, mh)[..k]) + j < Width(VocabsOf(vocab, mh))
    ensures (Encoded(vocab, bs, mh, nc, t, h)[i][Width(VocabsOf(vocab, mh)[..k]) + j] == 1.0)
              <==> vocab[mh[k]][j] in CleanSplit(t[mh[k]][i])
  {
    var vs := VocabsOf(vocab, mh);
    var ts := RowTokens(t, mh, i);
    var row := EncodeRow(vs, ts, bs, RowNumbers(t, nc, i));
    assert Encoded(vocab, bs, mh, nc, t, h)[i] == row;
    BlocksAt(vs, ts, k, j);
    assert row[Width(vs[..k]) + j] == Block(vs[k], ts[k])[j];
    assert vs[k] == vocab[mh[k]] && ts[k] == CleanSplit(t[mh[k]][i]);
    BlockEntries(vs[k], ts[k], j);
  }

  /** Record `i`'s entry for numeric column `m` sits after all the blocks
      and is that column's value scaled by its bounds. */
  lemma EncodedNumericEntry(vocab: map<string, seq<string>>, bs: seq<Bounds>, mh: seq<string>, nc: seq<string>,
                            t: map<string, seq<Cell>>, h: nat, i: int, m: int)
    requires Shaped(t, h)
    requires forall c :: c in mh ==> c in t && c in vocab
    requires forall c :: c in nc ==> c in t && AllNumbers(t[c])
    requires |bs| == |nc|
    requires 0 <= i < h && 0 <= m < |nc|
    ensures Encoded(vocab, bs, mh, nc, t, h)[i][Width(VocabsOf(vocab, mh)) + m] == Scale(Numbers(t[nc[m]])[i], bs[m])
  {
    var vs := VocabsOf(vocab, mh);
    var ts := RowTokens(t, mh, i);
    var ns := RowNumbers(t, nc, i);
    assert Encoded(vocab, bs, mh, nc, t, h)[i] == EncodeRow(vs, ts, bs, ns);
    EncodeRowNumeric(vs, ts, bs, ns, m);
  }

  /** Every numeric entry `fit_transform` produces lies in [0, 1]: the corpus
      is scaled by bounds fitted on itself. */
  lemma FitEncodedNumericInUnit(vocab: map<string, seq<string>>, mh: seq<string>, nc: seq<string>,
                                t: map<string, seq<Cell>>, h: nat, i: int, m: int)
    requires Shaped(t, h) && h > 0
    requires forall c :: c in mh ==> c in t && c in vocab
    requires forall c :: c in nc ==> c in t && AllNumbers(t[c])
    requires 0 <= i < h && 0 <= m < |nc|
    ensures 0.0 <= Encoded(vocab, FitScaler(t, nc), mh, nc, t, h)[i][Width(VocabsOf(vocab, mh)) + m] <= 1.0
  {
    var bs := FitScaler(t, nc);
    EncodedNumericEntry(vocab, bs, mh, nc, t, h, i, m);
    var xs := Numbers(t[nc[m]]);
    assert bs[m] == FitBounds(xs);
    ScaleFitCorpus(xs, i);
  }

  // ---------------------------------------------------------------------------
  // The encoder
  // ---------------------------------------------------------------------------

  /** `dataPreprocessor`: the column lists are fixed at construction; `vocab`
      is `mlb_dict` (each fitted binarizer's `classes_`) and `scaler` the fitted
      `MinMaxScaler` bounds, `None` while it is not fitted. */
  class Preprocessor {
    const multiHotCols: seq<string>
    const numericCols: seq<string>
    var vocab: map<string, seq<string>>
    var scaler: Option<seq<Bounds>>

    ghost predicate Valid()
      reads this
    {
      && (forall c :: c in vocab ==> ValidVocab(vocab[c]))
      && (scaler.Some? ==>
            && |scaler.value| == |numericCols|
            && (forall m :: 0 <= m < |numericCols| ==> scaler.value[m].lo <= scaler.value[m].hi)
            && (forall c :: c in numericCols ==> c !in multiHotCols))
    }

    constructor (multiHotCols: seq<string>, numericCols: seq<string>)
      ensures Valid()
      ensures this.multiHotCols == multiHotCols && this.numericCols == numericCols
      ensures vocab == map[] && scaler == None
    {
      this.multiHotCols := multiHotCols;
      this.numericCols := numericCols;
      vocab := map[];
      scaler := None;
    }

    /** The categorical stage of `fit_transform`: each column in turn is
        cleaned in place and gets a fitted vocabulary, and every record gets
        that column's block. */
    method FitCategorical(df: Table) returns (r: Result<seq<seq<real>>, Error>)
      requires Valid() && df.Valid()
      modifies this`vocab, df
      ensures Valid() && df.Valid() && df.height == old(df.height)
      ensures r.Ok? <==> forall c :: c in multiHotCols ==> c in old(df.columns)
      ensures Provenance(vocab, old(vocab), old(df.columns), multiHotCols)
      ensures r.Ok? ==>
                && AllFitted(vocab, old(df.columns), multiHotCols)
                && df.columns == CleanedTable(old(df.columns), multiHotCols)
                && BlocksUpTo(r.value, VocabsOf(vocab, multiHotCols), old(df.columns), multiHotCols, |multiHotCols|, df.height)
      ensures r.Err? ==> PartlyCleaned(old(df.columns), df.columns, multiHotCols)
      ensures df.columns == CleanedTable(old(df.columns), multiHotCols[..FirstOutside(multiHotCols, old(df.columns).Keys)])
      ensures vocab == Refitted(old(vocab), old(df.columns), multiHotCols[..FirstOutside(multiHotCols, old(df.columns).Keys)])
      ensures r.Err? ==> && FirstOutside(multiHotCols, old(df.columns).Keys) < |multiHotCols|
                         && r.error == MissingColumn(multiHotCols[FirstOutside(multiHotCols, old(df.columns).Keys)])
    {
      var cols, fitted, out, err := FitColumns(df.columns, vocab, multiHotCols, df.height);
      df.columns := cols;
      vocab := fitted;
      r := if err.Some? then Err(err.value) else Ok(out);
    }

    /** The numeric stage of `fit_transform`, on a frame whose categorical
        columns are cleaned: `df[numeric_cols] = scaler.fit_transform(...)`,
        then the scaled values follow the blocks of each record. */
    method FitNumeric(df: Table, blocks: seq<seq<real>>) returns (r: Result<seq<seq<real>>, Error>)
      requires Valid() && df.Valid() && |blocks| == df.height
      requires forall c :: c in multiHotCols ==> c in df.columns && NoNumbers(df.columns[c])
      modifies this`scaler, df
      ensures Valid() && df.Valid() && df.height == old(df.height)
      ensures r.Ok? <==> NumericOk(numericCols, old(df.columns), df.height)
      ensures r.Ok? ==>
                && scaler == Some(FitScaler(old(df.columns), numericCols))
                && r.value == AppendScaled(blocks, scaler.value, old(df.columns), numericCols)
                && df.columns == ScaledTable(old(df.columns), numericCols, scaler.value)
      ensures r.Err? ==> df.columns == old(df.columns)
      ensures r.Err? ==> scaler == if FirstMissing(old(df.columns), numericCols).Some? then old(scaler) else None
    {
      var h := df.height;
      var cols := df.columns;
      var missing := FirstMissing(cols, numericCols);
      if missing.Some? {
        return Err(MissingColumn(missing.value));
      }
      scaler := None;
      if h == 0 || |numericCols| == 0 {
        return Err(EmptyInput);
      }
      var bad := FirstNonNumeric(cols, numericCols);
      if bad.Some? {
        return Err(NonNumeric(bad.value));
      }
      forall c | c in numericCols ensures c !in multiHotCols {
        assert cols[c][0].Number?;
      }
      var bs := FitScaler(cols, numericCols);
      scaler := Some(bs);
      df.columns := ScaledTable(cols, numericCols, bs);
      r := Ok(AppendScaled(blocks, bs, cols, numericCols));
    }

    /** `fit_transform`: fits a vocabulary per categorical column and the
        scaler on the numeric columns, overwrites those columns of `df` with
        their cleaned and scaled values, and returns the encoded records. */
    method FitTransform(df: Table) returns (r: Result<seq<seq<real>>, Error>)
      requires Valid() && df.Valid()
      modifies this, df
      ensures Valid() && df.Valid()
      ensures df.height == old(df.height) && df.columns.Keys == old(df.columns).Keys
      ensures r.Ok? <==> FitOk(multiHotCols, numericCols, old(df.columns), df.height)
      ensures Provenance(vocab, old(vocab), old(df.columns), multiHotCols)
      ensures r.Ok? ==>
                && AllFitted(vocab, old(df.columns), multiHotCols)
                && scaler == Some(FitScaler(old(df.columns), numericCols))
                && r.value == Encoded(vocab, scaler.value, multiHotCols, numericCols, old(df.columns), df.height)
                && df.columns == ScaledTable(CleanedTable(old(df.columns), multiHotCols), numericCols, scaler.value)
      ensures r.Err? ==> PartlyCleaned(old(df.columns), df.columns, multiHotCols)
      ensures vocab == Refitted(old(vocab), old(df.columns), multiHotCols[..FirstOutside(multiHotCols, old(df.columns).Keys)])
      ensures r.Err? ==> df.columns == CleanedTable(old(df.columns), multiHotCols[..FirstOutside(multiHotCols, old(df.columns).Keys)])
      ensures r.Err? ==> scaler == if && FirstOutside(multiHotCols, old(df.columns).Keys) == |multiHotCols|
                                      && FirstMissing(old(df.columns), numericCols).None?
                                   then None else old(scaler)
    {
      ghost var t0 := df.columns;
      r := FitCategorical(df);
      if r.Err? {
        assert !FitOk(multiHotCols, numericCols, t0, df.height);
        return;
      }
      CleanedTablePartly(t0, multiHotCols);
      CleanedNoNumbers(t0, multiHotCols);
      FitOkCleaned(t0, multiHotCols, numericCols, df.height);
      FirstMissingKeys(df.columns, t0, numericCols);
      FirstOutsideAt(multiHotCols, t0.Keys, |multiHotCols|);
      assert multiHotCols[..|multiHotCols|] == multiHotCols;
      var blocks := r.value;
      r := FitNumeric(df, blocks);
      if r.Ok? {
        FinishEncoded(vocab, scaler.value, multiHotCols, numericCols, old(df.columns), df.height, blocks);
      }
    }

    /** The categorical stage of `transform`: each column in turn is cleaned
        in place and every record gets its block under the fitted vocabulary. */
    method TransformCategorical(df: Table) returns (r: Result<seq<seq<real>>, Error>)
      requires df.Valid()
      modifies df
      ensures df.Valid() && df.height == old(df.height)
      ensures r.Ok? <==> forall c :: c in multiHotCols ==> c in old(df.columns) && c in vocab
      ensures r.Ok? ==>
                && df.columns == CleanedTable(old(df.columns), multiHotCols)
                && BlocksUpTo(r.value, VocabsOf(vocab, multiHotCols), old(df.columns), multiHotCols, |multiHotCols|, df.height)
      ensures r.Err? ==> PartlyCleaned(old(df.columns), df.columns, multiHotCols)
      ensures df.columns == CleanedTable(old(df.columns), multiHotCols[..TransformReach(old(df.columns), vocab, multiHotCols)])
      ensures r.Err? ==> var k := FirstOutside(multiHotCols, old(df.columns).Keys * vocab.Keys);
                         && k < |multiHotCols|
                         && r.error == if multiHotCols[k] !in old(df.columns) then MissingColumn(multiHotCols[k])
                                       else NotFitted(multiHotCols[k])
    {
      var cols, out, err := TransformColumns(df.columns, vocab, multiHotCols, df.height);
      df.columns := cols;
      r := if err.Some? then Err(err.value) else Ok(out);
    }

    /** The numeric stage of `transform`: `df[numeric_cols] =
        scaler.transform(...)` with the fitted bounds. */
    method TransformNumeric(df: Table, ghost t0: map<string, seq<Cell>>, blocks: seq<seq<real>>)
      returns (r: Result<seq<seq<real>>, Error>)
      requires Valid() && df.Valid() && Shaped(t0, df.height)
      requires forall c :: c in multiHotCols ==> c in t0 && c in vocab
      requires df.columns == CleanedTable(t0, multiHotCols)
      requires BlocksUpTo(blocks, VocabsOf(vocab, multiHotCols), t0, multiHotCols, |multiHotCols|, df.height)
      modifies df
      ensures df.height == old(df.height)
      ensures r.Ok? <==> TransformOk(vocab, scaler, multiHotCols, numericCols, t0, df.height)
      ensures r.Ok? ==>
                && r.value == Encoded(vocab, scaler.value, multiHotCols, numericCols, t0, df.height)
                && df.columns == ScaledTable(CleanedTable(t0, multiHotCols), numericCols, scaler.value)
      ensures r.Err? ==> df.columns == old(df.columns)
    {
      var h := df.height;
      var cols := df.columns;
      TransformOkCases(t0, cols, vocab, scaler, multiHotCols, numericCols, h);
      var missing := FirstMissing(cols, numericCols);
      if missing.Some? {
        return Err(MissingColumn(missing.value));
      }
      if scaler.None? {
        return Err(ScalerNotFitted);
      }
      var bs := scaler.value;
      var bad := FirstNonNumeric(cols, numericCols);
      if bad.Some? {
        return Err(NonNumeric(bad.value));
      }
      if h == 0 {
        return Err(EmptyInput);
      }
      df.columns := ScaledTable(cols, numericCols, bs);
      r := Ok(AppendScaled(blocks, bs, cols, numericCols));
      assert r.value == Encoded(vocab, bs, multiHotCols, numericCols, t0, h) by {
        FinishEncoded(vocab, bs, multiHotCols, numericCols, t0, h, blocks);
      }
    }

    /** `transform`: encodes the records of `df` with the fitted vocabularies
        and bounds, overwriting its categorical and numeric columns with their
        cleaned and scaled values. Nothing of the fitted state changes. */
    method Transform(df: Table) returns (r: Result<seq<seq<real>>, Error>)
      requires Valid() && df.Valid()
      modifies df
      ensures df.Valid()
      ensures df.height == old(df.height) && df.columns.Keys == old(df.columns).Keys
      ensures r.Ok? <==> TransformOk(vocab, scaler, multiHotCols, numericCols, old(df.columns), df.height)
      ensures r.Ok? ==>
                && r.value == Encoded(vocab, scaler.value, multiHotCols, numericCols, old(df.columns), df.height)
                && df.columns == ScaledTable(CleanedTable(old(df.columns), multiHotCols), numericCols, scaler.value)
      ensures r.Err? ==> PartlyCleaned(old(df.columns), df.columns, multiHotCols)
      ensures r.Err? ==> df.columns == CleanedTable(old(df.columns), multiHotCols[..TransformReach(old(df.columns), vocab, multiHotCols)])
    {
      r := TransformCategorical(df);
      if r.Err? {
        return;
      }
      CleanedTablePartly(old(df.columns), multiHotCols);
      r := TransformNumeric(df, old(df.columns), r.value);
    }

    /** The loops of `process_job_description` that build its one-record
        frame: a matched-token cell per fitted column, then 0.5 per numeric
        column. */
    method BuildJdFrame(text: string) returns (data: map<string, seq<Cell>>)
      ensures data == JdFrame(vocab, numericCols, text)
    {
      data := map[];
      var keys := vocab.Keys;
      while keys != {}
        invariant keys <= vocab.Keys
        invariant forall c :: c in data <==> c in vocab && c !in keys
        invariant forall c :: c in data ==> data[c] == [TokenCell(Matched(vocab[c], text))]
        decreases keys
      {
        var col :| col in keys;
        data := data[col := [TokenCell(Matched(vocab[col], text))]];
        keys := keys - {col};
      }
      for m := 0 to |numericCols|
        invariant forall c :: c in data <==> c in vocab || c in numericCols[..m]
        invariant forall c :: c in data ==>
                    data[c] == if c in numericCols[..m] then [Number(Neutral)] else [TokenCell(Matched(vocab[c], text))]
      {
        TakeSnoc(numericCols, m);
        data := data[numericCols[m] := [Number(Neutral)]];
      }
      assert numericCols[..|numericCols|] == numericCols;
    }

    /** `process_job_description`: the lowercased text gets, per fitted
        column, the vocabulary tokens that occur in it as substrings, and 0.5
        in every numeric column; that one-record frame goes through
        `Transform`. */
    method ProcessJobDescription(jdText: string) returns (r: Result<seq<seq<real>>, Error>)
      requires Valid()
      ensures r.Ok? <==> (forall c :: c in multiHotCols ==> c in vocab) && scaler.Some?
      ensures r.Ok? ==> r.value == [JdRow(VocabsOf(vocab, multiHotCols), jdText, scaler.value)]
    {
      var text := Lower(jdText);
      var data := BuildJdFrame(text);
      var jd := new Table(1, data);
      JdTransformOk(vocab, scaler, multiHotCols, numericCols, text);
      r := Transform(jd);
      if r.Ok? {
        JdEncoded(vocab, scaler.value, multiHotCols, numericCols, jdText);
      }
    }
  }

  /** The frame `process_job_description` builds from a lowercased text. */
  function JdFrame(vocab: map<string, seq<string>>, nc: seq<string>, text: string): (r: map<string, seq<Cell>>)
    ensures forall c :: c in r <==> c in vocab || c in nc
    ensures Shaped(r, 1)
  {
    map c | c in vocab.Keys + (set m | m in nc) :: if c in nc then [Number(Neutral)] else [TokenCell(Matched(vocab[c], text))]
  }

  /** The job-description frame passes the checks of `transform` exactly
      when every categorical column is fitted and so is the scaler: its
      columns are all there, and its numeric cells hold 0.5. */
  lemma JdTransformOk(vocab: map<string, seq<string>>, scaler: Option<seq<Bounds>>, mh: seq<string>, nc: seq<string>,
                      text: string)
    ensures TransformOk(vocab, scaler, mh, nc, JdFrame(vocab, nc, text), 1) <==>
              (forall c :: c in mh ==> c in vocab) && scaler.Some?
  {
  }

  /** Encoding the job-description frame gives the job-description row. */
  lemma JdEncoded(vocab: map<string, seq<string>>, bs: seq<Bounds>, mh: seq<string>, nc: seq<string>, jdText: string)
    requires forall c :: c in vocab ==> ValidVocab(vocab[c])
    requires forall c :: c in mh ==> c in vocab && c !in nc
    requires |bs| == |nc|
    ensures Encoded(vocab, bs, mh, nc, JdFrame(vocab, nc, Lower(jdText)), 1) == [JdRow(VocabsOf(vocab, mh), jdText, bs)]
  {
    var text := Lower(jdText);
    var data := JdFrame(vocab, nc, text);
    var vs := VocabsOf(vocab, mh);
    var toks := seq(|vs|, k requires 0 <= k < |vs| => Matched(vs[k], text));
    forall k | 0 <= k < |mh| ensures RowTokens(data, mh, 0)[k] == toks[k] {
      MatchedClean(vs[k], text);
      CleanTokensFixed(toks[k]);
    }
    assert RowTokens(data, mh, 0) == toks;
    assert RowNumbers(data, nc, 0) == seq(|bs|, _ => Neutral);
  }

  /** Cleaning a column that may already have been cleaned gives its original tokens. */
  lemma CleanedColumnTokens(orig: seq<Cell>, cur: seq<Cell>)
    requires cur == orig || cur == CleanedCells(orig)
    ensures CleanColumn(cur) == CleanColumn(orig)
  {
    forall i | 0 <= i < |orig| ensures CleanSplit(cur[i]) == CleanSplit(orig[i]) {
      CleanSplitIdempotent(orig[i]);
    }
  }

  /** The matched words of a valid vocabulary are clean tokens. */
  lemma MatchedClean(v: seq<string>, text: string)
    requires ValidVocab(v)
    ensures forall i :: 0 <= i < |Matched(v, text)| ==> CleanToken(Matched(v, text)[i])
  {
    var r := Matched(v, text);
    forall i | 0 <= i < |r| ensures CleanToken(r[i]) {
      assert r[i] in r;
      var j :| 0 <= j < |v| && v[j] == r[i];
    }
  }
}
