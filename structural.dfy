/** The criteria-weighted structural scorer (multi_criteria_structural_score.py):
    candidate and job-description fields are cleaned into comma-separated
    tokens, compared by Jaccard similarity and domain equality, weighted into
    one score, and the candidates are ranked by that score. */
module StructuralScore {
  import opened Wrappers
  import opened Strings

  // ---------------------------------------------------------------------------
  // clean_text and tokenize
  // ---------------------------------------------------------------------------

  /** The characters the pattern `[^a-zA-Z0-9, ]+` does not delete. */
  predicate Kept(c: char) {
    ('a' <= c <= 'z') || ('A' <= c <= 'Z') || ('0' <= c <= '9') || c == ',' || c == ' '
  }

  /** What a cleaned text is made of: lowercase letters, digits, commas, spaces. */
  predicate CleanChar(c: char) {
    ('a' <= c <= 'z') || ('0' <= c <= '9') || c == ',' || c == ' '
  }

  predicate AllClean(s: string) {
    forall i :: 0 <= i < |s| ==> CleanChar(s[i])
  }

  /** `re.sub(r'[^a-zA-Z0-9, ]+', '', text)`: every other character goes. */
  function Filter(s: string): (r: string)
    ensures |r| <= |s|
    ensures forall i :: 0 <= i < |r| ==> Kept(r[i])
    ensures (forall i :: 0 <= i < |s| ==> Kept(s[i])) ==> r == s
    ensures |s| == 1 ==> r == if Kept(s[0]) then s else []
    decreases |s|
  {
    if s == [] then []
    else
      var rest := Filter(s[1..]);
      if Kept(s[0]) then [s[0]] + rest else rest
  }

  /** The filter works character by character: it distributes over
      concatenation, so the kept characters stay in their order. */
  lemma {:induction false} FilterAppend(a: string, b: string)
    ensures Filter(a + b) == Filter(a) + Filter(b)
    decreases |a|
  {
    if a == [] {
      assert a + b == b;
    } else {
      assert (a + b)[1..] == a[1..] + b;
      FilterAppend(a[1..], b);
    }
  }

  /** Lowercasing kept characters leaves only clean ones. */
  lemma LowerKept(s: string)
    requires forall i :: 0 <= i < |s| ==> Kept(s[i])
    ensures AllClean(Lower(s))
  {
  }

  /** Stripping keeps a text clean. */
  lemma StripClean(s: string)
    requires AllClean(s)
    ensures AllClean(Strip(s))
  {
    var r := Strip(s);
    forall i | 0 <= i < |r| ensures CleanChar(r[i]) {
      assert r[i] in r;
      var j :| 0 <= j < |s| && s[j] == r[i];
    }
  }

  /** `clean_text(text)`: filter, lowercase, strip. */
  function CleanText(s: string): (r: string)
    ensures AllClean(r)
    ensures r == [] || (r[0] != ' ' && r[|r| - 1] != ' ')
  {
    LowerKept(Filter(s));
    StripClean(Lower(Filter(s)));
    Strip(Lower(Filter(s)))
  }

  /** Cleaning is idempotent: a cleaned text is its own cleaning. */
  lemma CleanTextIdempotent(s: string)
    ensures CleanText(CleanText(s)) == CleanText(s)
  {
    var r := CleanText(s);
    assert Filter(r) == r;
    LowerOfLowercase(r);
    assert Bare(r);
  }

  /** A token `tokenize` produces: non-empty, no surrounding whitespace, no
      comma, and only clean characters. */
  predicate Token(t: string) {
    t != [] && Bare(t) && ',' !in t && AllClean(t)
  }

  /** `[t.strip() for t in pieces if t.strip()]`. */
  function StripAll(pieces: seq<string>): (r: seq<string>)
    ensures |r| <= |pieces|
    ensures |pieces| == 1 ==> r == if Strip(pieces[0]) == "" then [] else [Strip(pieces[0])]
    decreases |pieces|
  {
    if pieces == [] then []
    else if Strip(pieces[0]) == "" then StripAll(pieces[1..])
    else [Strip(pieces[0])] + StripAll(pieces[1..])
  }

  /** Pieces are stripped one at a time: the result for a concatenation is
      the concatenation of the results, so the order of pieces is kept. */
  lemma {:induction false} StripAllAppend(a: seq<string>, b: seq<string>)
    ensures StripAll(a + b) == StripAll(a) + StripAll(b)
    decreases |a|
  {
    if a == [] {
      assert a + b == b;
    } else {
      assert (a + b)[1..] == a[1..] + b;
      StripAllAppend(a[1..], b);
    }
  }

  /** The strings kept are exactly the non-empty stripped pieces. */
  lemma {:induction false} StripAllMembers(pieces: seq<string>, t: string)
    ensures t in StripAll(pieces) <==> t != "" && exists p :: p in pieces && Strip(p) == t
    decreases |pieces|
  {
    if pieces != [] {
      StripAllMembers(pieces[1..], t);
      assert forall p :: p in pieces <==> p == pieces[0] || p in pieces[1..];
    }
  }

  /** Stripping comma-free pieces of clean characters gives tokens. */
  lemma {:induction false} StripAllTokens(pieces: seq<string>)
    requires forall i :: 0 <= i < |pieces| ==> AllClean(pieces[i]) && ',' !in pieces[i]
    ensures forall i :: 0 <= i < |StripAll(pieces)| ==> Token(StripAll(pieces)[i])
    decreases |pieces|
  {
    if pieces != [] {
      var rest := StripAll(pieces[1..]);
      StripAllTokens(pieces[1..]);
      var p := pieces[0];
      var t := Strip(p);
      if t != "" {
        forall i | 0 <= i < |t| ensures CleanChar(t[i]) {
          assert t[i] in t;
          var j :| 0 <= j < |p| && p[j] == t[i];
        }
        var r := [t] + rest;
        assert StripAll(pieces) == r;
        forall i | 0 <= i < |r| ensures Token(r[i]) {
          if i > 0 {
            assert r[i] == rest[i - 1];
          }
        }
      }
    }
  }

  /** Tokens are kept as they are, none dropped. */
  lemma {:induction false} StripAllTokensFixed(ts: seq<string>)
    requires forall i :: 0 <= i < |ts| ==> Token(ts[i])
    ensures StripAll(ts) == ts
    decreases |ts|
  {
    if ts != [] {
      StripAllTokensFixed(ts[1..]);
      assert Strip(ts[0]) == ts[0];
      assert ts == [ts[0]] + ts[1..];
    }
  }

  /** `tokenize(text)`: the stripped non-empty comma-separated pieces of the
      cleaned text, in order. */
  function Tokenize(text: string): (r: seq<string>)
    ensures r == StripAll(Split(CleanText(text), ','))
    ensures forall i :: 0 <= i < |r| ==> Token(r[i])
  {
    var cleaned := CleanText(text);
    var pieces := Split(cleaned, ',');
    forall i | 0 <= i < |pieces| ensures AllClean(pieces[i]) {
      forall j | 0 <= j < |pieces[i]| ensures CleanChar(pieces[i][j]) {
        var c := pieces[i][j];
        assert c in pieces[i];
        assert c in cleaned;
        var k :| 0 <= k < |cleaned| && cleaned[k] == c;
      }
    }
    StripAllTokens(pieces);
    StripAll(pieces)
  }

  /** A token of a text is exactly a non-empty stripped comma-separated piece
      of its cleaned form. */
  lemma TokenizeMembers(text: string, t: string)
    ensures t in Tokenize(text) <==> t != "" && exists p :: p in Split(CleanText(text), ',') && Strip(p) == t
  {
    StripAllMembers(Split(CleanText(text), ','), t);
  }

  lemma TokenizeEmpty()
    ensures Tokenize("") == []
  {
    assert Filter("") == "";
    assert Strip(Lower("")) == "";
    assert Split("", ',') == [""];
  }

  /** Every character of a join of clean pieces, with a comma, is clean. */
  lemma {:induction false} JoinClean(ps: seq<string>)
    requires forall i :: 0 <= i < |ps| ==> AllClean(ps[i])
    ensures AllClean(Join(ps, ','))
    decreases |ps|
  {
    if |ps| > 1 {
      JoinClean(ps[1..]);
      var j := ps[0] + [','] + Join(ps[1..], ',');
      forall i | 0 <= i < |j| ensures CleanChar(j[i]) {
        if i > |ps[0]| {
          assert j[i] == Join(ps[1..], ',')[i - |ps[0]| - 1];
        }
      }
    }
  }

  /** A join of non-empty pieces starts with the first piece's first character
      and ends with the last piece's last character. */
  lemma {:induction false} JoinEnds(ps: seq<string>)
    requires |ps| > 0 && forall i :: 0 <= i < |ps| ==> ps[i] != []
    ensures |Join(ps, ',')| > 0
    ensures Join(ps, ',')[0] == ps[0][0]
    ensures Join(ps, ',')[|Join(ps, ',')| - 1] == ps[|ps| - 1][|ps[|ps| - 1]| - 1]
    decreases |ps|
  {
    if |ps| > 1 {
      JoinEnds(ps[1..]);
      var rest := Join(ps[1..], ',');
      assert Join(ps, ',') == ps[0] + [','] + rest;
      assert ps[1..][|ps| - 2] == ps[|ps| - 1];
    }
  }

  /** Tokens joined by commas are already clean text. */
  lemma CleanTextJoin(ts: seq<string>)
    requires |ts| > 0 && forall i :: 0 <= i < |ts| ==> Token(ts[i])
    ensures CleanText(Join(ts, ',')) == Join(ts, ',')
  {
    var j := Join(ts, ',');
    JoinClean(ts);
    JoinEnds(ts);
    assert Filter(j) == j;
    LowerOfLowercase(j);
    assert Bare(j);
  }

  /** Joining the tokens with commas and tokenizing again gives the same
      tokens: `tokenize` loses nothing but the separators. */
  lemma TokenizeJoin(text: string)
    ensures Tokenize(Join(Tokenize(text), ',')) == Tokenize(text)
  {
    var ts := Tokenize(text);
    if ts == [] {
      TokenizeEmpty();
    } else {
      CleanTextJoin(ts);
      SplitJoin(ts, ',');
      StripAllTokensFixed(ts);
    }
  }

  // ---------------------------------------------------------------------------
  // parse_jd
  // ---------------------------------------------------------------------------

  /** A record's field values by name: a job description's criteria, or a
      candidate's row. */
  type Fields = map<string, string>

  /** `d.get(key, "")`. */
  function Get(m: Fields, key: string): (r: string)
    ensures key !in m ==> r == ""
    ensures key in m ==> r == m[key]
  {
    if key in m then m[key] else ""
  }

  /** The parsed job description: token lists and a lowercased domain. */
  datatype Query = Query(skills: seq<string>, domain: string, languages: seq<string>, softSkills: seq<string>)

  /** `parse_jd(jd_text)`. */
  function ParseJd(jd: Fields): Query {
    Query(Tokenize(Get(jd, "skills")), Lower(Get(jd, "domain")),
          Tokenize(Get(jd, "languages")), Tokenize(Get(jd, "soft_skills")))
  }

  /** A missing criterion is an empty token list (or an empty domain), and
      the domain is lowercased but keeps its punctuation. */
  lemma ParseJdMissing(jd: Fields)
    ensures "skills" !in jd ==> ParseJd(jd).skills == []
    ensures "languages" !in jd ==> ParseJd(jd).languages == []
    ensures "soft_skills" !in jd ==> ParseJd(jd).softSkills == []
    ensures "domain" !in jd ==> ParseJd(jd).domain == ""
    ensures "domain" in jd ==> |ParseJd(jd).domain| == |jd["domain"]|
    ensures "domain" in jd ==> forall i :: 0 <= i < |jd["domain"]| && !IsUpper(jd["domain"][i]) ==>
                                  ParseJd(jd).domain[i] == jd["domain"][i]
  {
    TokenizeEmpty();
  }

  /** Every criterion list is made of tokens. */
  lemma ParseJdTokens(jd: Fields)
    ensures forall i :: 0 <= i < |ParseJd(jd).skills| ==> Token(ParseJd(jd).skills[i])
    ensures forall i :: 0 <= i < |ParseJd(jd).languages| ==> Token(ParseJd(jd).languages[i])
    ensures forall i :: 0 <= i < |ParseJd(jd).softSkills| ==> Token(ParseJd(jd).softSkills[i])
  {
  }

  // ---------------------------------------------------------------------------
  // jaccard_similarity
  // ---------------------------------------------------------------------------

  /** `jaccard_similarity(set1, set2)`. */
  function Jaccard(a: set<string>, b: set<string>): (r: real)
    ensures a == {} || b == {} ==> r == 0.0
  {
    if a == {} || b == {} then 0.0 else |a * b| as real / |a + b| as real
  }

  /** A ratio of counts with the numerator at most the denominator. */
  lemma Ratio(n: nat, d: nat)
    requires 0 < d && n <= d
    ensures 0.0 <= n as real / d as real <= 1.0
    ensures n as real / d as real == 1.0 <==> n == d
    ensures n as real / d as real == 0.0 <==> n == 0
  {
    var q := n as real / d as real;
    assert q * d as real == n as real;
  }

  /** The intersection is no larger than the union, and as large only when
      the two sets are equal. */
  lemma OverlapCount(a: set<string>, b: set<string>)
    ensures |a * b| <= |a + b|
    ensures |a * b| == |a + b| <==> a == b
  {
    assert |a + b| == |a - b| + |b - a| + |a * b|;
    if |a * b| == |a + b| {
      assert |a - b| == 0 && |b - a| == 0;
      assert a - b == {} && b - a == {};
      forall x ensures x in a <==> x in b {
        if x in a {
          assert x !in a - b;
        }
        if x in b {
          assert x !in b - a;
        }
      }
    }
  }

  lemma JaccardBounds(a: set<string>, b: set<string>)
    ensures 0.0 <= Jaccard(a, b) <= 1.0
  {
    if a != {} && b != {} {
      OverlapCount(a, b);
      assert a <= a + b;
      Ratio(|a * b|, |a + b|);
    }
  }

  lemma JaccardSymmetric(a: set<string>, b: set<string>)
    ensures Jaccard(a, b) == Jaccard(b, a)
  {
    assert a * b == b * a && a + b == b + a;
  }

  /** Similarity 1 exactly for two equal non-empty sets. */
  lemma JaccardOne(a: set<string>, b: set<string>)
    ensures Jaccard(a, b) == 1.0 <==> a == b && a != {}
  {
    if a != {} && b != {} {
      OverlapCount(a, b);
      assert a <= a + b;
      Ratio(|a * b|, |a + b|);
    }
  }

  /** Similarity 0 exactly when the sets share nothing (which includes one
      of them being empty). */
  lemma JaccardZero(a: set<string>, b: set<string>)
    ensures Jaccard(a, b) == 0.0 <==> a * b == {}
  {
    if a != {} && b != {} {
      OverlapCount(a, b);
      assert a <= a + b;
      Ratio(|a * b|, |a + b|);
    }
  }

  // ---------------------------------------------------------------------------
  // compute_structural_score
  // ---------------------------------------------------------------------------

  /** What goes wrong: a KeyError on a field the source indexes directly. */
  datatype Error = MissingField(name: string)

  /** The returned dictionary: the four sub-scores and their weighted sum. */
  datatype Scores = Scores(skills: real, soft: real, lang: real, domain: real, final: real)

  predicate InUnit(x: real) {
    0.0 <= x <= 1.0
  }

  function Weighted(skills: real, soft: real, lang: real, domain: real): real {
    0.3 * skills + 0.2 * soft + 0.1 * lang + 0.2 * domain
  }

  /** `set(ts)`. */
  function Members(ts: seq<string>): set<string> {
    set t | t in ts
  }

  /** `set(tokenize(text))`: the token set of a candidate field. */
  function TokenSet(text: string): set<string> {
    Members(Tokenize(text))
  }

  /** `compute_structural_score(candidate, jd)`: `candidate["skills"]` is
      indexed directly, the other fields default to "". */
  function ComputeStructuralScore(candidate: Fields, jd: Query): (r: Result<Scores, Error>)
    ensures r.Err? <==> "skills" !in candidate
    ensures r.Err? ==> r.error == MissingField("skills")
    ensures r.Ok? ==> r.value.skills == Jaccard(TokenSet(candidate["skills"]), Members(jd.skills))
    ensures r.Ok? ==> r.value.soft == Jaccard(TokenSet(Get(candidate, "soft_skills")), Members(jd.softSkills))
    ensures r.Ok? ==> r.value.lang == Jaccard(TokenSet(Get(candidate, "languages")), Members(jd.languages))
    ensures r.Ok? ==> InUnit(r.value.skills) && InUnit(r.value.soft) && InUnit(r.value.lang)
    ensures r.Ok? ==> (r.value.domain == 1.0 <==> Lower(Get(candidate, "domain")) == jd.domain)
    ensures r.Ok? ==> (r.value.domain == 0.0 <==> Lower(Get(candidate, "domain")) != jd.domain)
    ensures r.Ok? ==> r.value.final == Weighted(r.value.skills, r.value.soft, r.value.lang, r.value.domain)
  {
    if "skills" !in candidate then Err(MissingField("skills"))
    else
      var candSkills := TokenSet(candidate["skills"]);
      var candSoft := TokenSet(Get(candidate, "soft_skills"));
      var candLang := TokenSet(Get(candidate, "languages"));
      var candDomain := Lower(Get(candidate, "domain"));
      var jdSkills := Members(jd.skills);
      var jdSoft := Members(jd.softSkills);
      var jdLang := Members(jd.languages);
      var skills := Jaccard(candSkills, jdSkills);
      var soft := Jaccard(candSoft, jdSoft);
      var lang := Jaccard(candLang, jdLang);
      var domain := if candDomain == jd.domain then 1.0 else 0.0;
      JaccardBounds(candSkills, jdSkills);
      JaccardBounds(candSoft, jdSoft);
      JaccardBounds(candLang, jdLang);
      Ok(Scores(skills, soft, lang, domain, Weighted(skills, soft, lang, domain)))
  }

  /** A candidate and a job description that both lack a domain agree on it. */
  lemma MissingDomainsMatch(candidate: Fields, jd: Fields)
    requires "skills" in candidate && "domain" !in candidate && "domain" !in jd
    ensures ComputeStructuralScore(candidate, ParseJd(jd)).value.domain == 1.0
  {
    assert Lower("") == "";
  }

  /** The weighted score lies in [0, 0.8]. */
  lemma ScoreBounds(candidate: Fields, jd: Query)
    requires "skills" in candidate
    ensures 0.0 <= ComputeStructuralScore(candidate, jd).value.final <= 0.8
  {
  }

  /** The top score 0.8 is reached exactly when each token set equals the job
      description's, none of them empty, and the domains agree. */
  lemma ScorePerfect(candidate: Fields, jd: Query)
    requires "skills" in candidate
    ensures ComputeStructuralScore(candidate, jd).value.final == 0.8 <==>
              && TokenSet(candidate["skills"]) == Members(jd.skills) != {}
              && TokenSet(Get(candidate, "soft_skills")) == Members(jd.softSkills) != {}
              && TokenSet(Get(candidate, "languages")) == Members(jd.languages) != {}
              && Lower(Get(candidate, "domain")) == jd.domain
  {
    JaccardOne(TokenSet(candidate["skills"]), Members(jd.skills));
    JaccardOne(TokenSet(Get(candidate, "soft_skills")), Members(jd.softSkills));
    JaccardOne(TokenSet(Get(candidate, "languages")), Members(jd.languages));
  }

  /** The score is 0 exactly when no token is shared in any field and the
      domains differ. */
  lemma ScoreZero(candidate: Fields, jd: Query)
    requires "skills" in candidate
    ensures ComputeStructuralScore(candidate, jd).value.final == 0.0 <==>
              && TokenSet(candidate["skills"]) * Members(jd.skills) == {}
              && TokenSet(Get(candidate, "soft_skills")) * Members(jd.softSkills) == {}
              && TokenSet(Get(candidate, "languages")) * Members(jd.languages) == {}
              && Lower(Get(candidate, "domain")) != jd.domain
  {
    JaccardZero(TokenSet(candidate["skills"]), Members(jd.skills));
    JaccardZero(TokenSet(Get(candidate, "soft_skills")), Members(jd.softSkills));
    JaccardZero(TokenSet(Get(candidate, "languages")), Members(jd.languages));
  }

  // ---------------------------------------------------------------------------
  // The results loop and the ranking
  // ---------------------------------------------------------------------------

  /** One row of `results`: the candidate's id and name with its scores. */
  datatype Entry = Entry(candidateId: string, name: string, scores: Scores)

  /** The entry the loop appends for a row, or the KeyError it stops on: the
      score is computed first, then `row["candidate_id"]` and `row["name"]`
      are read. */
  function EntryOf(row: Fields, jd: Query): (r: Result<Entry, Error>)
    ensures r.Ok? <==> "skills" in row && "candidate_id" in row && "name" in row
    ensures r.Ok? ==> r.value == Entry(row["candidate_id"], row["name"], ComputeStructuralScore(row, jd).value)
  {
    match ComputeStructuralScore(row, jd)
    case Err(e) => Err(e)
    case Ok(s) =>
      if "candidate_id" !in row then Err(MissingField("candidate_id"))
      else if "name" !in row then Err(MissingField("name"))
      else Ok(Entry(row["candidate_id"], row["name"], s))
  }

  /** The outcome of each row, in row order. */
  function Outcomes(rows: seq<Fields>, jd: Query): (r: seq<Result<Entry, Error>>)
    ensures |r| == |rows|
    ensures forall i :: 0 <= i < |rows| ==> r[i] == EntryOf(rows[i], jd)
  {
    seq(|rows|, i requires 0 <= i < |rows| => EntryOf(rows[i], jd))
  }

  /** The values of a sequence of outcomes in order, or the first error. */
  function Collect<T>(rs: seq<Result<T, Error>>): Result<seq<T>, Error>
    decreases |rs|
  {
    if rs == [] then Ok([])
    else
      match Collect(rs[..|rs| - 1])
      case Err(e) => Err(e)
      case Ok(vs) =>
        match rs[|rs| - 1]
        case Err(e) => Err(e)
        case Ok(v) => Ok(vs + [v])
  }

  /** Collecting succeeds exactly when every outcome does, and then keeps
      every value in order. */
  lemma {:induction false} CollectOk<T>(rs: seq<Result<T, Error>>)
    ensures Collect(rs).Ok? <==> forall i :: 0 <= i < |rs| ==> rs[i].Ok?
    ensures Collect(rs).Ok? ==> |Collect(rs).value| == |rs|
    ensures Collect(rs).Ok? ==> forall i :: 0 <= i < |rs| ==> Collect(rs).value[i] == rs[i].value
    decreases |rs|
  {
    if rs != [] {
      var n := |rs| - 1;
      var init := rs[..n];
      CollectOk(init);
      assert forall i :: 0 <= i < n ==> init[i] == rs[i];
      if Collect(init).Ok? && rs[n].Ok? {
        var vs := Collect(init).value;
        var r := vs + [rs[n].value];
        assert Collect(rs) == Ok(r);
        forall i | 0 <= i < |rs| ensures r[i] == rs[i].value {
          if i < n {
            assert r[i] == vs[i];
          }
        }
      }
    }
  }

  /** A failed collection carries the error of the first failed outcome. */
  lemma {:induction false} CollectErr<T>(rs: seq<Result<T, Error>>)
    requires Collect(rs).Err?
    ensures exists i :: && 0 <= i < |rs| && rs[i].Err?
                        && (forall j :: 0 <= j < i ==> rs[j].Ok?)
                        && Collect(rs).error == rs[i].error
    decreases |rs|
  {
    var n := |rs| - 1;
    var init := rs[..n];
    assert forall i :: 0 <= i < n ==> init[i] == rs[i];
    if Collect(init).Err? {
      CollectErr(init);
      var i :| && 0 <= i < n && init[i].Err?
               && (forall j :: 0 <= j < i ==> init[j].Ok?)
               && Collect(init).error == init[i].error;
      assert rs[i].Err?;
    } else {
      CollectOk(init);
      assert forall j :: 0 <= j < n ==> rs[j].Ok?;
    }
  }

  /** Once a prefix fails, the whole collection fails with the same error. */
  lemma {:induction false} CollectFails<T>(rs: seq<Result<T, Error>>, k: nat)
    requires k <= |rs| && Collect(rs[..k]).Err?
    ensures Collect(rs) == Collect(rs[..k])
    decreases |rs| - k
  {
    if k < |rs| {
      assert rs[..k + 1][..k] == rs[..k];
      CollectFails(rs, k + 1);
    } else {
      assert rs[..k] == rs;
    }
  }

  /** The rows the loop builds, in order, or the KeyError of the first row
      missing a field. */
  function Results(rows: seq<Fields>, jd: Query): Result<seq<Entry>, Error> {
    Collect(Outcomes(rows, jd))
  }

  /** The loop succeeds exactly when every row has its fields, and then yields
      one entry per row, in row order; otherwise it fails with the error of
      the first row that lacks one. */
  lemma ResultsShape(rows: seq<Fields>, jd: Query)
    ensures Results(rows, jd).Ok? <==> forall i :: 0 <= i < |rows| ==> EntryOf(rows[i], jd).Ok?
    ensures Results(rows, jd).Ok? ==> |Results(rows, jd).value| == |rows|
    ensures Results(rows, jd).Ok? ==>
              forall i :: 0 <= i < |rows| ==> Results(rows, jd).value[i] == EntryOf(rows[i], jd).value
    ensures Results(rows, jd).Err? ==>
              exists i :: && 0 <= i < |rows| && EntryOf(rows[i], jd).Err?
                          && (forall j :: 0 <= j < i ==> EntryOf(rows[j], jd).Ok?)
                          && Results(rows, jd).error == EntryOf(rows[i], jd).error
  {
    var rs := Outcomes(rows, jd);
    CollectOk(rs);
    if Collect(rs).Err? {
      CollectErr(rs);
    }
  }

  /** One more row either extends the results of the rows before it or
      ends the loop with that row's error. */
  lemma ResultsStep(rows: seq<Fields>, jd: Query, k: nat, vs: seq<Entry>)
    requires k < |rows| && Collect(Outcomes(rows, jd)[..k]) == Ok(vs)
    ensures EntryOf(rows[k], jd).Ok? ==> Collect(Outcomes(rows, jd)[..k + 1]) == Ok(vs + [EntryOf(rows[k], jd).value])
    ensures EntryOf(rows[k], jd).Err? ==> Results(rows, jd) == Err(EntryOf(rows[k], jd).error)
  {
    var rs := Outcomes(rows, jd);
    assert rs[..k + 1][..k] == rs[..k];
    assert rs[..k + 1][k] == rs[k] == EntryOf(rows[k], jd);
    if rs[k].Err? {
      CollectFails(rs, k + 1);
    }
  }

  /** The loop at the end of the script: score every candidate row and
      append its entry to `results`; a missing field ends it. */
  method CollectResults(rows: seq<Fields>, jd: Query) returns (r: Result<seq<Entry>, Error>)
    ensures r == Results(rows, jd)
  {
    r := Ok([]);
    var k := 0;
    while k < |rows| && r.Ok?
      invariant 0 <= k <= |rows|
      invariant r.Ok? ==> Collect(Outcomes(rows, jd)[..k]) == r
      invariant r.Err? ==> Results(rows, jd) == r
    {
      var e := EntryOf(rows[k], jd);
      ResultsStep(rows, jd, k, r.value);
      r := if e.Ok? then Ok(r.value + [e.value]) else Err(e.error);
      k := k + 1;
    }
    if r.Ok? {
      assert Outcomes(rows, jd)[..k] == Outcomes(rows, jd);
    }
  }

  /** Non-increasing final scores. */
  predicate SortedDesc(es: seq<Entry>) {
    forall i, j :: 0 <= i < j < |es| ==> es[i].scores.final >= es[j].scores.final
  }

  /** Places `x` after every entry with a higher score. */
  function InsertDesc(x: Entry, es: seq<Entry>): (r: seq<Entry>)
    requires SortedDesc(es)
    ensures SortedDesc(r)
    ensures multiset(r) == multiset(es) + multiset{x}
    ensures |r| == |es| + 1 && (r[0] == x || (es != [] && r[0] == es[0]))
    decreases |es|
  {
    if es == [] || es[0].scores.final <= x.scores.final then [x] + es
    else
      var rest := InsertDesc(x, es[1..]);
      assert multiset(es) == multiset{es[0]} + multiset(es[1..]) by {
        assert es == [es[0]] + es[1..];
      }
      assert rest[0].scores.final <= es[0].scores.final;
      [es[0]] + rest
  }

  /** `sort_values(by="final_score", ascending=False)`: the entries by
      non-increasing final score. The order among equal scores is not the
      source's (its sort is not stable) and is not claimed. */
  function SortDesc(es: seq<Entry>): (r: seq<Entry>)
    ensures SortedDesc(r)
    ensures multiset(r) == multiset(es)
    decreases |es|
  {
    if es == [] then []
    else
      var n := |es| - 1;
      var r := InsertDesc(es[n], SortDesc(es[..n]));
      assert multiset(es) == multiset(es[..n]) + multiset{es[n]} by {
        assert es == es[..n] + [es[n]];
      }
      r
  }

  /** The script's ranking: the results of every candidate, highest final
      score first. With no candidate the results frame has no columns, and
      sorting it by `final_score` is a `KeyError`. */
  method Rank(rows: seq<Fields>, jd: Query) returns (r: Result<seq<Entry>, Error>)
    ensures r.Ok? <==> |rows| > 0 && forall i :: 0 <= i < |rows| ==> EntryOf(rows[i], jd).Ok?
    ensures rows == [] ==> r == Err(MissingField("final_score"))
    ensures r.Err? && rows != [] ==> Results(rows, jd).Err? && r.error == Results(rows, jd).error
    ensures r.Ok? ==>
              && |r.value| == |rows|
              && SortedDesc(r.value)
              && Results(rows, jd).Ok?
              && multiset(r.value) == multiset(Results(rows, jd).value)
  {
    ResultsShape(rows, jd);
    var results := CollectResults(rows, jd);
    if results.Err? {
      return Err(results.error);
    }
    if results.value == [] {
      return Err(MissingField("final_score"));
    }
    r := Ok(SortDesc(results.value));
    assert |multiset(r.value)| == |multiset(results.value)|;
  }
}
