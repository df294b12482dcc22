/** Looking a value up in a sheet row of the coaching dashboard by fuzzy
    column name: `normalize_key` and `get_val`. A row is a Python dict, kept
    here as its sequence of entries in insertion order. */
module CoachingRows {
  import opened Wrappers
  import opened Text
  import opened Cells
  import opened Coaching

  // ---------------------------------------------------------------------
  // normalize_key

  predicate IsAsciiAlnum(c: char)
  {
    'a' <= c <= 'z' || 'A' <= c <= 'Z' || '0' <= c <= '9'
  }

  /** The characters a normalised key is made of. */
  predicate IsKeyChar(c: char)
  {
    'a' <= c <= 'z' || '0' <= c <= '9'
  }

  predicate IsKey(s: string)
  {
    forall i | 0 <= i < |s| :: IsKeyChar(s[i])
  }

  /** `re.sub('[^a-zA-Z0-9]', '', s)`: the ASCII letters and digits of `s`,
      in order. */
  function KeepAlnum(s: string): (r: string)
    ensures |r| <= |s|
    ensures forall i | 0 <= i < |r| :: IsAsciiAlnum(r[i])
    ensures (forall i | 0 <= i < |s| :: !IsAsciiUpper(s[i])) ==> IsKey(r)
  {
    if s == [] then []
    else (if IsAsciiAlnum(s[0]) then [s[0]] else []) + KeepAlnum(s[1..])
  }

  /** `normalize_key`: lower-cased, then stripped of everything but letters
      and digits. */
  function NormalizeKey(key: string): (r: string)
    ensures |r| <= |key|
    ensures IsKey(r)
  {
    KeepAlnum(Lower(key))
  }

  lemma {:induction false} KeepAlnumAppend(a: string, b: string)
    ensures KeepAlnum(a + b) == KeepAlnum(a) + KeepAlnum(b)
  {
    if a != [] {
      assert (a + b)[0] == a[0];
      assert (a + b)[1..] == a[1..] + b;
      KeepAlnumAppend(a[1..], b);
    } else {
      assert a + b == b;
    }
  }

  lemma {:induction false} KeepAlnumOfKey(s: string)
    requires IsKey(s)
    ensures KeepAlnum(s) == s
  {
    if s != [] {
      KeepAlnumOfKey(s[1..]);
    }
  }

  lemma LowerAppend(a: string, b: string)
    ensures Lower(a + b) == Lower(a) + Lower(b)
  {
  }

  /** Normalising works character by character, so it distributes over
      concatenation. */
  lemma NormalizeKeyAppend(a: string, b: string)
    ensures NormalizeKey(a + b) == NormalizeKey(a) + NormalizeKey(b)
  {
    LowerAppend(a, b);
    KeepAlnumAppend(Lower(a), Lower(b));
  }

  /** A normalised key normalises to itself. */
  lemma NormalizeKeyIdempotent(key: string)
    ensures NormalizeKey(NormalizeKey(key)) == NormalizeKey(key)
  {
    var k := NormalizeKey(key);
    assert Lower(k) == k;
    KeepAlnumOfKey(k);
  }

  /** Normalising ignores case. */
  lemma NormalizeKeyIgnoresCase(key: string)
    ensures NormalizeKey(Lower(key)) == NormalizeKey(key)
  {
    assert Lower(Lower(key)) == Lower(key);
  }

  /** Spaces and punctuation never matter: a key and the same key with a
      non-alphanumeric character inserted anywhere normalise alike. */
  lemma NormalizeKeyIgnoresPunctuation(a: string, c: char, b: string)
    requires !IsAsciiAlnum(c)
    ensures NormalizeKey(a + [c] + b) == NormalizeKey(a + b)
  {
    NormalizeKeyAppend(a + [c], b);
    NormalizeKeyAppend(a, [c]);
    NormalizeKeyAppend(a, b);
    assert Lower([c]) == [LowerChar(c)];
    assert KeepAlnum([LowerChar(c)]) == [] by {
      assert [LowerChar(c)][1..] == [];
    }
  }

  // ---------------------------------------------------------------------
  // The row with normalised column names

  /** A row: a dict's entries in insertion order. */
  type Row = seq<(string, Value)>

  function Keys(d: Row): (ks: seq<string>)
    ensures |ks| == |d|
    ensures forall i | 0 <= i < |d| :: ks[i] == d[i].0
  {
    seq(|d|, i requires 0 <= i < |d| => d[i].0)
  }

  predicate DistinctKeys(d: Row)
  {
    forall i, j | 0 <= i < j < |d| :: d[i].0 != d[j].0
  }

  /** `d[k] = v` on a dict: an existing key keeps its place and takes the
      new value, a new key goes at the end. */
  function Put(d: Row, k: string, v: Value): (r: Row)
    requires DistinctKeys(d)
    ensures DistinctKeys(r)
    ensures k in Keys(d) ==> Keys(r) == Keys(d)
    ensures k !in Keys(d) ==> Keys(r) == Keys(d) + [k]
  {
    if d == [] then [(k, v)]
    else if d[0].0 == k then
      assert k !in Keys(d[1..]) by {
        assert forall i | 0 <= i < |d| - 1 :: Keys(d[1..])[i] == d[i + 1].0;
      }
      [(k, v)] + d[1..]
    else
      var rest := Put(d[1..], k, v);
      assert Keys(d) == [d[0].0] + Keys(d[1..]);
      [d[0]] + rest
  }

  /** The entry under `k` takes the new value; every other keeps its own. */
  lemma {:induction false} PutValues(d: Row, k: string, v: Value)
    requires DistinctKeys(d)
    ensures forall i | 0 <= i < |Put(d, k, v)| ::
      Put(d, k, v)[i].1 == if Put(d, k, v)[i].0 == k then v else d[i].1
    decreases |d|
  {
    if d != [] && d[0].0 != k {
      PutValues(d[1..], k, v);
      var r := Put(d, k, v);
      assert forall i | 1 <= i < |r| :: r[i] == Put(d[1..], k, v)[i - 1];
    }
  }

  /** The column names of a row, each normalised. */
  function NormalizedKeys(row: Row): (ks: seq<string>)
    ensures |ks| == |row|
    ensures forall i | 0 <= i < |row| :: ks[i] == NormalizeKey(row[i].0)
  {
    seq(|row|, i requires 0 <= i < |row| => NormalizeKey(row[i].0))
  }

  /** The row `{normalize_key(k): v for k, v in row.items()}`. */
  function NormalizedRow(row: Row): (d: Row)
    ensures DistinctKeys(d)
    ensures forall i | 0 <= i < |d| :: IsKey(d[i].0)
  {
    if row == [] then []
    else
      var last := row[|row| - 1];
      Put(NormalizedRow(row[..|row| - 1]), NormalizeKey(last.0), last.1)
  }

  /** A reference for the order of the keys: each distinct key once, in the
      order of its first occurrence. */
  function Dedup(ks: seq<string>): seq<string>
  {
    if ks == [] then []
    else
      var prefix := Dedup(ks[..|ks| - 1]);
      if ks[|ks| - 1] in prefix then prefix else prefix + [ks[|ks| - 1]]
  }

  /** A reference for the values: the value of the last column whose name
      normalises to `nk`. */
  function LastValue(row: Row, nk: string): Option<Value>
  {
    if row == [] then None
    else if NormalizeKey(row[|row| - 1].0) == nk then Some(row[|row| - 1].1)
    else LastValue(row[..|row| - 1], nk)
  }

  /** The normalised row lists the normalised column names once each, in
      order of first appearance. */
  lemma {:induction false} NormalizedRowKeys(row: Row)
    ensures Keys(NormalizedRow(row)) == Dedup(NormalizedKeys(row))
  {
    if row != [] {
      var init := row[..|row| - 1];
      NormalizedRowKeys(init);
      assert NormalizedKeys(row)[..|row| - 1] == NormalizedKeys(init);
    }
  }

  /** Each normalised key carries the value of the last column normalising
      to it, and the keys present are exactly those some column normalises
      to. */
  lemma {:induction false} NormalizedRowValues(row: Row, nk: string)
    ensures nk in Keys(NormalizedRow(row)) <==> LastValue(row, nk).Some?
    ensures forall i | 0 <= i < |NormalizedRow(row)| && NormalizedRow(row)[i].0 == nk ::
      LastValue(row, nk) == Some(NormalizedRow(row)[i].1)
  {
    if row != [] {
      var init := row[..|row| - 1];
      NormalizedRowValues(init, nk);
      PutValues(NormalizedRow(init), NormalizeKey(row[|row| - 1].0), row[|row| - 1].1);
    }
  }

  // ---------------------------------------------------------------------
  // get_val

  /** The value of the first entry whose key contains `needle`. */
  function FirstContaining(d: Row, needle: string): (r: Option<Value>)
    ensures r.None? <==> forall i | 0 <= i < |d| :: !Contains(d[i].0, needle)
    ensures r.Some? ==> exists i | 0 <= i < |d| ::
      Contains(d[i].0, needle) && d[i].1 == r.value &&
      forall j | 0 <= j < i :: !Contains(d[j].0, needle)
  {
    if d == [] then None
    else if Contains(d[0].0, needle) then Some(d[0].1)
    else
      var r := FirstContaining(d[1..], needle);
      assert forall i | 1 <= i < |d| :: d[i] == d[1..][i - 1];
      r
  }

  /** The value the first matching keyword finds in the normalised row `d`. */
  function FirstKeyword(d: Row, keywords: seq<string>): (r: Option<Value>)
    ensures r.None? <==> forall q | 0 <= q < |keywords| :: FirstContaining(d, NormalizeKey(keywords[q])).None?
  {
    if keywords == [] then None
    else
      var here := FirstContaining(d, NormalizeKey(keywords[0]));
      if here.Some? then here
      else
        assert forall q | 1 <= q < |keywords| :: keywords[q] == keywords[1..][q - 1];
        FirstKeyword(d, keywords[1..])
  }

  /** A value found comes from the first keyword that matches a column. */
  lemma {:induction false} FirstKeywordFirstMatch(d: Row, keywords: seq<string>)
    requires FirstKeyword(d, keywords).Some?
    ensures exists q | 0 <= q < |keywords| ::
      FirstContaining(d, NormalizeKey(keywords[q])) == FirstKeyword(d, keywords) &&
      forall p | 0 <= p < q :: FirstContaining(d, NormalizeKey(keywords[p])).None?
  {
    if FirstContaining(d, NormalizeKey(keywords[0])).None? {
      var tail := keywords[1..];
      FirstKeywordFirstMatch(d, tail);
      var q :| 0 <= q < |tail| &&
        FirstContaining(d, NormalizeKey(tail[q])) == FirstKeyword(d, tail) &&
        forall p | 0 <= p < q :: FirstContaining(d, NormalizeKey(tail[p])).None?;
      assert keywords[q + 1] == tail[q];
      forall p | 0 <= p < q + 1
        ensures FirstContaining(d, NormalizeKey(keywords[p])).None?
      {
        if p > 0 {
          assert keywords[p] == tail[p - 1];
        }
      }
    } else {
      assert FirstContaining(d, NormalizeKey(keywords[0])) == FirstKeyword(d, keywords);
    }
  }

  /** The loops of `get_val`: the value found, if any. Nothing is found
      exactly when no keyword, normalised, occurs in any normalised column
      name; a value found is the last value among the columns sharing the
      normalised name that a keyword occurs in. */
  function Lookup(row: Row, keywords: seq<string>): (r: Option<Value>)
    ensures r.None? <==>
      forall q, i | 0 <= q < |keywords| && 0 <= i < |row| ::
        !Contains(NormalizeKey(row[i].0), NormalizeKey(keywords[q]))
    ensures r.Some? ==> exists q, i | 0 <= q < |keywords| && 0 <= i < |row| ::
      Contains(NormalizeKey(row[i].0), NormalizeKey(keywords[q])) &&
      LastValue(row, NormalizeKey(row[i].0)) == r
  {
    KeywordsMissing(row, keywords);
    KeywordFound(row, keywords);
    FirstKeyword(NormalizedRow(row), keywords)
  }

  /** Where the value found in the normalised row comes from. */
  lemma KeywordFound(row: Row, keywords: seq<string>)
    ensures FirstKeyword(NormalizedRow(row), keywords).Some? ==>
      exists q, i | 0 <= q < |keywords| && 0 <= i < |row| ::
        Contains(NormalizeKey(row[i].0), NormalizeKey(keywords[q])) &&
        LastValue(row, NormalizeKey(row[i].0)) == FirstKeyword(NormalizedRow(row), keywords)
  {
    var d := NormalizedRow(row);
    if FirstKeyword(d, keywords).Some? {
      FirstKeywordFirstMatch(d, keywords);
      var q :| 0 <= q < |keywords| && FirstContaining(d, NormalizeKey(keywords[q])) == FirstKeyword(d, keywords);
      NeedleFound(row, NormalizeKey(keywords[q]));
    }
  }

  /** A value found for a needle in the normalised row is the last value of
      a column whose normalised name contains the needle. */
  lemma NeedleFound(row: Row, needle: string)
    requires FirstContaining(NormalizedRow(row), needle).Some?
    ensures exists i | 0 <= i < |row| ::
      Contains(NormalizeKey(row[i].0), needle) &&
      LastValue(row, NormalizeKey(row[i].0)) == FirstContaining(NormalizedRow(row), needle)
  {
    var d := NormalizedRow(row);
    var j :| 0 <= j < |d| && Contains(d[j].0, needle) && d[j].1 == FirstContaining(d, needle).value;
    NormalizedRowFrom(row, j);
    NormalizedRowValues(row, d[j].0);
    assert Keys(d)[j] == d[j].0;
  }

  /** `clean_num` applied to a row value; a number is first written out by
      `str`, the parameter `show`. A zero number is falsy and reads as 0.0
      directly. */
  function CellNumber(v: Value, show: real -> string): real
  {
    match v
    case Text(t) => CleanNum(t)
    case Num(x) => if x == 0.0 then 0.0 else CleanNum(show(x))
  }

  /** `str(v).strip()` of a row value. */
  function CellText(v: Value, show: real -> string): string
  {
    match v
    case Text(t) => Strip(t)
    case Num(x) => Strip(show(x))
  }

  /** `get_val(row, keywords, is_num=True)`. */
  function GetNum(row: Row, keywords: seq<string>, show: real -> string): (r: real)
    ensures Lookup(row, keywords).None? ==> r == 0.0
    ensures Lookup(row, keywords).Some? ==> r == CellNumber(Lookup(row, keywords).value, show)
  {
    match Lookup(row, keywords)
    case None => 0.0
    case Some(v) => CellNumber(v, show)
  }

  /** `get_val(row, keywords)`. */
  function GetText(row: Row, keywords: seq<string>, show: real -> string): (r: string)
    ensures Lookup(row, keywords).None? ==> r == ""
    ensures Lookup(row, keywords).Some? ==> r == CellText(Lookup(row, keywords).value, show)
    ensures r == [] || (!IsSpace(r[0]) && !IsSpace(r[|r| - 1]))
  {
    match Lookup(row, keywords)
    case None => ""
    case Some(v) => CellText(v, show)
  }

  /** When nothing is found in the normalised row, no keyword, normalised,
      occurs in any normalised column name. */
  lemma KeywordsMissing(row: Row, keywords: seq<string>)
    ensures FirstKeyword(NormalizedRow(row), keywords).None? ==>
      forall q, i | 0 <= q < |keywords| && 0 <= i < |row| ::
        !Contains(NormalizeKey(row[i].0), NormalizeKey(keywords[q]))
  {
    if FirstKeyword(NormalizedRow(row), keywords).None? {
      forall q, i | 0 <= q < |keywords| && 0 <= i < |row|
        ensures !Contains(NormalizeKey(row[i].0), NormalizeKey(keywords[q]))
      {
        KeywordMissing(row, keywords, q, i);
      }
    }
  }

  lemma KeywordMissing(row: Row, keywords: seq<string>, q: nat, i: nat)
    requires q < |keywords| && i < |row|
    requires FirstKeyword(NormalizedRow(row), keywords).None?
    ensures !Contains(NormalizeKey(row[i].0), NormalizeKey(keywords[q]))
  {
    var d := NormalizedRow(row);
    NormalizedRowCovers(row, i);
    var j :| 0 <= j < |d| && Keys(d)[j] == NormalizeKey(row[i].0);
    assert FirstContaining(d, NormalizeKey(keywords[q])).None?;
  }

  /** Every column's normalised name is a key of the normalised row. */
  lemma NormalizedRowCovers(row: Row, i: nat)
    requires i < |row|
    ensures NormalizeKey(row[i].0) in Keys(NormalizedRow(row))
  {
    LastValueFound(row, i);
    NormalizedRowValues(row, NormalizeKey(row[i].0));
  }

  /** Every key of the normalised row is some column's normalised name. */
  lemma NormalizedRowFrom(row: Row, j: nat)
    requires j < |NormalizedRow(row)|
    ensures exists i | 0 <= i < |row| :: NormalizedRow(row)[j].0 == NormalizeKey(row[i].0)
  {
    var d := NormalizedRow(row);
    assert Keys(d)[j] == d[j].0;
    NormalizedRowValues(row, d[j].0);
    LastValueFrom(row, d[j].0);
  }

  lemma {:induction false} LastValueFound(row: Row, i: nat)
    requires i < |row|
    ensures LastValue(row, NormalizeKey(row[i].0)).Some?
  {
    if i < |row| - 1 && NormalizeKey(row[|row| - 1].0) != NormalizeKey(row[i].0) {
      LastValueFound(row[..|row| - 1], i);
    }
  }

  lemma {:induction false} LastValueFrom(row: Row, nk: string)
    requires LastValue(row, nk).Some?
    ensures exists i | 0 <= i < |row| :: nk == NormalizeKey(row[i].0)
  {
    if NormalizeKey(row[|row| - 1].0) != nk {
      LastValueFrom(row[..|row| - 1], nk);
      var i :| 0 <= i < |row| - 1 && nk == NormalizeKey(row[..|row| - 1][i].0);
      assert row[..|row| - 1][i] == row[i];
    }
  }

  /** With nothing found, `get_val` answers 0.0 or the empty string. */
  lemma GetValMissing(row: Row, keywords: seq<string>, show: real -> string)
    requires forall q, i | 0 <= q < |keywords| && 0 <= i < |row| ::
      !Contains(NormalizeKey(row[i].0), NormalizeKey(keywords[q]))
    ensures GetNum(row, keywords, show) == 0.0
    ensures GetText(row, keywords, show) == ""
  {
  }

  /** Two columns whose names normalise alike collapse into one, and the
      later column's value is the one found. */
  lemma LaterDuplicateWins(a: string, b: string, v: Value, w: Value, keyword: string)
    requires NormalizeKey(a) == NormalizeKey(b)
    requires Contains(NormalizeKey(a), NormalizeKey(keyword))
    ensures Lookup([(a, v), (b, w)], [keyword]) == Some(w)
  {
    var row := [(a, v), (b, w)];
    var nk := NormalizeKey(a);
    assert row[..1] == [(a, v)];
    assert [(a, v)][..0] == [];
    assert NormalizedRow([(a, v)]) == [(nk, v)];
    assert NormalizedRow(row) == Put([(nk, v)], nk, w);
    assert Keys([(nk, v)]) == [nk];
    assert NormalizedRow(row) == [(nk, w)];
  }

  /** A keyword without letters or digits normalises to the empty string,
      which every column name contains: it finds the first column. */
  lemma PunctuationKeywordFindsFirstColumn(row: Row, keyword: string, rest: seq<string>)
    requires row != []
    requires forall i | 0 <= i < |keyword| :: !IsAsciiAlnum(keyword[i])
    ensures Lookup(row, [keyword] + rest) == LastValue(row, NormalizeKey(row[0].0))
  {
    var d := NormalizedRow(row);
    assert NormalizeKey(keyword) == [] by {
      assert forall i | 0 <= i < |keyword| :: !IsAsciiAlnum(Lower(keyword)[i]);
      KeepAlnumNone(Lower(keyword));
    }
    NormalizedRowKeys(row);
    DedupHead(NormalizedKeys(row));
    assert d[0].0 == Keys(d)[0] == NormalizeKey(row[0].0);
    NormalizedRowValues(row, d[0].0);
    assert Contains(d[0].0, []);
    assert FirstContaining(d, []) == Some(d[0].1);
    assert ([keyword] + rest)[0] == keyword;
  }

  lemma {:induction false} DedupHead(ks: seq<string>)
    requires ks != []
    ensures Dedup(ks) != [] && Dedup(ks)[0] == ks[0]
  {
    if |ks| > 1 {
      DedupHead(ks[..|ks| - 1]);
    }
  }

  lemma {:induction false} KeepAlnumNone(s: string)
    requires forall i | 0 <= i < |s| :: !IsAsciiAlnum(s[i])
    ensures KeepAlnum(s) == []
  {
    if s != [] {
      KeepAlnumNone(s[1..]);
    }
  }
}
