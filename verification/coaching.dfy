/** The string helpers of the coaching dashboard: cleaning a language-model
    reply down to its JSON object, reading a number out of a free-text sheet
    cell, and looking a value up in a sheet row by fuzzy column name. */
module Coaching {
  import opened Wrappers
  import opened Numbers
  import opened Text

  const Fence: string := "```"
  const JsonFence: string := "```json"

  /** The reply with every "```json" and then every "```" removed, trimmed. */
  function Unfenced(text: string): string
  {
    Strip(RemoveAll(RemoveAll(text, JsonFence), Fence))
  }

  /** `i` is the first '{' of `t` and `j` its last '}'. */
  predicate ObjectBounds(t: string, i: nat, j: nat)
  {
    i < |t| && t[i] == '{' && '{' !in t[..i] && j < |t| && t[j] == '}' && '}' !in t[j + 1..]
  }

  /** The text from the first '{' to the last '}' of `t`, empty when the last
      '}' comes first, and all of `t` when one of the braces is missing. */
  function OuterObject(t: string): (r: string)
    ensures '{' !in t || '}' !in t ==> r == t
    ensures '{' in t && '}' in t && r != [] ==> r[0] == '{' && r[|r| - 1] == '}'
    ensures forall i: nat, j: nat | ObjectBounds(t, i, j) ::
      r == if i <= j then t[i..j + 1] else []
  {
    BoundsAreFound(t);
    match (FirstIndex(t, '{'), LastIndex(t, '}'))
    case (Some(i), Some(j)) => if i <= j then t[i..j + 1] else []
    case _ => t
  }

  /** The first '{' and the last '}' are what `find` and `rfind` report. */
  lemma BoundsAreFound(t: string)
    ensures forall i: nat, j: nat | ObjectBounds(t, i, j) ::
      FirstIndex(t, '{') == Some(i) && LastIndex(t, '}') == Some(j)
  {
    forall i: nat, j: nat | ObjectBounds(t, i, j)
      ensures FirstIndex(t, '{') == Some(i) && LastIndex(t, '}') == Some(j)
    {
      FirstIndexAt(t, '{', i);
      LastIndexAt(t, '}', j);
    }
  }

  /** `clean_json_response`: "{}" for an empty reply; otherwise the fences
      are gone, and of the unfenced reply what is kept is the span from the
      first '{' to the last '}' (nothing when they are inverted), or all of
      it when a brace is missing. */
  function CleanJsonResponse(text: string): (r: string)
    ensures text == [] ==> r == "{}"
    ensures text != [] ==> !Contains(r, Fence)
    ensures text != [] && ('{' !in Unfenced(text) || '}' !in Unfenced(text)) ==> r == Unfenced(text)
    ensures text != [] ==> forall i: nat, j: nat | ObjectBounds(Unfenced(text), i, j) ::
      r == if i <= j then Unfenced(text)[i..j + 1] else []
  {
    if text == [] then "{}"
    else
      UnfencedHasNoFence(text);
      OuterObjectNoFence(Unfenced(text));
      OuterObject(Unfenced(text))
  }

  /** When the first '{' precedes the last '}', the object is exactly the
      text between them, braces included. */
  lemma OuterObjectSlice(t: string, i: nat, j: nat)
    requires i < j < |t|
    requires t[i] == '{' && '{' !in t[..i]
    requires t[j] == '}' && '}' !in t[j + 1..]
    ensures OuterObject(t) == t[i..j + 1]
  {
  }

  /** When every '}' comes before every '{', the object is empty. */
  lemma OuterObjectInverted(t: string)
    requires '{' in t && '}' in t
    requires forall a, b | 0 <= a < |t| && 0 <= b < |t| && t[a] == '{' && t[b] == '}' :: b < a
    ensures OuterObject(t) == []
  {
  }

  /** How removing "```" starts: a leading non-backtick survives, and a lone
      leading backtick stays lone. */
  lemma {:induction false} FenceRemovalHead(s: string)
    ensures |s| > 0 && s[0] != '`' ==>
      var r := RemoveAll(s, Fence); |r| > 0 && r[0] == s[0]
    ensures |s| > 0 && s[0] == '`' && (|s| == 1 || s[1] != '`') ==>
      var r := RemoveAll(s, Fence); |r| > 0 && r[0] == '`' && (|r| == 1 || r[1] != '`')
  {
    if |s| >= 3 && s[0] == '`' && s[1] != '`' {
      assert s[..3] != Fence;
      FenceRemovalHead(s[1..]);
    }
  }

  /** Removing "```" left to right never leaves a "```" behind. */
  lemma {:induction false} NoFenceAfterRemoval(s: string)
    ensures !Contains(RemoveAll(s, Fence), Fence)
    decreases |s|
  {
    if |s| < 3 {
      ContainsTooLong(s, Fence);
    } else if s[..3] == Fence {
      NoFenceAfterRemoval(s[3..]);
    } else {
      var rest := RemoveAll(s[1..], Fence);
      NoFenceAfterRemoval(s[1..]);
      ContainsCons(s[0], rest, Fence);
      if s[0] == '`' {
        if s[1] != '`' {
          FenceRemovalHead(s[1..]);
        } else {
          assert s[2] != '`';
          FenceRemovalHead(s[1..]);
          FenceRemovalHead(s[2..]);
        }
        assert !HasPrefix([s[0]] + rest, Fence);
      }
    }
  }

  lemma UnfencedHasNoFence(text: string)
    ensures !Contains(Unfenced(text), Fence)
  {
    var u := RemoveAll(RemoveAll(text, JsonFence), Fence);
    NoFenceAfterRemoval(RemoveAll(text, JsonFence));
    if Contains(Unfenced(text), Fence) {
      StripContains(u, Fence);
    }
  }

  /** A trimmed text without fences is its own unfenced form. */
  lemma UnfencedUnchanged(t: string)
    requires !Contains(t, Fence)
    requires t == [] || (!IsSpace(t[0]) && !IsSpace(t[|t| - 1]))
    ensures Unfenced(t) == t
  {
    NoJsonFence(t);
    RemoveAllAbsent(t, Fence);
    StripUnchanged(t);
  }

  /** Without "```" there is no "```json" to remove either. */
  lemma NoJsonFence(t: string)
    requires !Contains(t, Fence)
    ensures RemoveAll(t, JsonFence) == t
  {
    if Contains(t, JsonFence) {
      ContainsPrefixOf(t, Fence, JsonFence);
    }
    RemoveAllAbsent(t, JsonFence);
  }

  /** Cleaning a cleaned reply changes nothing, unless the first cleaning
      produced the empty string (which the second turns into "{}"). */
  lemma CleanJsonIdempotent(text: string)
    requires CleanJsonResponse(text) != []
    ensures CleanJsonResponse(CleanJsonResponse(text)) == CleanJsonResponse(text)
  {
    if text == [] {
      EmptyObjectIsClean();
    } else {
      CleanedReplyIsClean(text);
    }
  }

  lemma EmptyObjectIsClean()
    ensures CleanJsonResponse("{}") == "{}"
  {
    var r := "{}";
    assert !Contains(r, Fence) by {
      ContainsTooLong(r, Fence);
    }
    BracedIsClean(r);
  }

  lemma CleanedReplyIsClean(text: string)
    requires text != [] && CleanJsonResponse(text) != []
    ensures CleanJsonResponse(CleanJsonResponse(text)) == CleanJsonResponse(text)
  {
    var t := Unfenced(text);
    UnfencedHasNoFence(text);
    assert t == [] || (!IsSpace(t[0]) && !IsSpace(t[|t| - 1]));
    if '{' in t && '}' in t {
      ObjectIsClean(t);
    } else {
      BracelessIsClean(t);
    }
  }

  lemma ObjectIsClean(t: string)
    requires !Contains(t, Fence) && '{' in t && '}' in t && OuterObject(t) != []
    ensures CleanJsonResponse(OuterObject(t)) == OuterObject(t)
  {
    OuterObjectNoFence(t);
    BracedIsClean(OuterObject(t));
  }

  lemma BracelessIsClean(t: string)
    requires t != [] && !Contains(t, Fence) && ('{' !in t || '}' !in t)
    requires !IsSpace(t[0]) && !IsSpace(t[|t| - 1])
    ensures CleanJsonResponse(t) == t
  {
    UnfencedUnchanged(t);
  }

  /** The outer object of a text without fences has none either. */
  lemma OuterObjectNoFence(t: string)
    requires !Contains(t, Fence)
    ensures !Contains(OuterObject(t), Fence)
  {
    match (FirstIndex(t, '{'), LastIndex(t, '}'))
    case (Some(i), Some(j)) =>
      if i <= j && Contains(t[i..j + 1], Fence) {
        ContainsInSlice(t, i, j + 1, Fence);
      }
    case _ =>
  }

  /** A braced text without fences is already clean. */
  lemma BracedIsClean(r: string)
    requires r != [] && r[0] == '{' && r[|r| - 1] == '}'
    requires !Contains(r, Fence)
    ensures CleanJsonResponse(r) == r
  {
    UnfencedUnchanged(r);
    OuterObjectSlice(r, 0, |r| - 1);
    assert r[0..|r|] == r;
  }

  // ---------------------------------------------------------------------
  // clean_num: the regular expression [-+]?\d*\.\d+|\d+

  /** Length of the run of digits starting at index `i`. */
  function DigitRun(s: string, i: nat): (n: nat)
    requires i <= |s|
    ensures i + n <= |s|
    ensures forall k | i <= k < i + n :: IsDigit(s[k])
    ensures i + n == |s| || !IsDigit(s[i + n])
    decreases |s| - i
  {
    if i < |s| && IsDigit(s[i]) then 1 + DigitRun(s, i + 1) else 0
  }

  /** A lexeme the pattern matches: a plain run of digits (second
      alternative), or an optionally signed decimal with a non-empty
      fraction (first alternative). */
  datatype Lexeme = Integer(digits: string) | Decimal(sign: string, whole: string, fraction: string)

  predicate WellFormed(x: Lexeme)
  {
    match x
    case Integer(d) => |d| > 0 && AllDigits(d)
    case Decimal(sg, w, f) => sg in {"", "-", "+"} && AllDigits(w) && |f| > 0 && AllDigits(f)
  }

  /** The characters the lexeme spans. */
  function Spelling(x: Lexeme): string
  {
    match x
    case Integer(d) => d
    case Decimal(sg, w, f) => sg + w + "." + f
  }

  /** Python's `float()` of the matched text, as an exact decimal. */
  function LexemeValue(x: Lexeme): real
    requires WellFormed(x)
  {
    match x
    case Integer(d) => DigitsValue(d) as real
    case Decimal(sg, w, f) =>
      var v := DigitsValue(w) as real + DigitsValue(f) as real / Pow10(|f|) as real;
      if sg == "-" then -v else v
  }

  /** Where `s[i..]` spells the lexeme `x`. */
  predicate SpelledAt(s: string, i: nat, x: Lexeme)
  {
    WellFormed(x) && i + |Spelling(x)| <= |s| && s[i..i + |Spelling(x)|] == Spelling(x)
  }

  /** The optional sign `[-+]?` at index `i`, taken greedily. */
  function SignAt(s: string, i: nat): (sign: string)
    requires i <= |s|
    ensures sign in {"", "-", "+"} && i + |sign| <= |s| && sign == s[i..i + |sign|]
  {
    if i < |s| && (s[i] == '-' || s[i] == '+') then [s[i]] else []
  }

  /** A sign, digits, a point and at least one digit between the given
      indices spell a decimal lexeme. */
  lemma DecimalSpelled(s: string, i: nat, j: nat, k: nat, e: nat)
    requires i <= j <= k < e <= |s|
    requires s[i..j] in {"", "-", "+"}
    requires forall t | j <= t < k :: IsDigit(s[t])
    requires s[k] == '.' && k + 1 < e
    requires forall t | k < t < e :: IsDigit(s[t])
    ensures SpelledAt(s, i, Decimal(s[i..j], s[j..k], s[k + 1..e]))
  {
    var x := Decimal(s[i..j], s[j..k], s[k + 1..e]);
    assert WellFormed(x) by {
      DigitsSlice(s, j, k);
      DigitsSlice(s, k + 1, e);
    }
    assert Spelling(x) == s[i..e] by {
      SplitAtPoint(s, i, j, k, e);
    }
  }

  /** A slice of digits is a digit string. */
  lemma DigitsSlice(s: string, a: nat, b: nat)
    requires a <= b <= |s|
    requires forall t | a <= t < b :: IsDigit(s[t])
    ensures AllDigits(s[a..b])
  {
    forall t | 0 <= t < b - a
      ensures IsDigit(s[a..b][t])
    {
      assert s[a..b][t] == s[a + t];
    }
  }

  /** A slice through a decimal point is the parts before and after it. */
  lemma SplitAtPoint(s: string, i: nat, j: nat, k: nat, e: nat)
    requires i <= j <= k < e <= |s| && s[k] == '.'
    ensures s[i..e] == s[i..j] + s[j..k] + "." + s[k + 1..e]
  {
    SliceSplit(s, k, k + 1, e);
    SliceSplit(s, j, k, e);
    SliceSplit(s, i, j, e);
    assert s[k..k + 1] == ".";
  }

  lemma SliceSplit(s: string, a: nat, b: nat, c: nat)
    requires a <= b <= c <= |s|
    ensures s[a..c] == s[a..b] + s[b..c]
  {
  }

  /** At least `n` digits from index `j` on make a run at least that long. */
  lemma DigitRunAtLeast(s: string, j: nat, n: nat)
    requires j + n <= |s|
    requires forall t | j <= t < j + n :: IsDigit(s[t])
    ensures DigitRun(s, j) >= n
  {
  }

  /** What a decimal lexeme spelled at `i` says about the characters of `s`. */
  lemma DecimalSpellingChars(s: string, i: nat, x: Lexeme)
    requires x.Decimal? && SpelledAt(s, i, x)
    ensures i + |x.sign| + |x.whole| + 1 + |x.fraction| <= |s|
    ensures x.sign == SignAt(s, i)
    ensures forall t | i + |x.sign| <= t < i + |x.sign| + |x.whole| :: IsDigit(s[t])
    ensures s[i + |x.sign| + |x.whole|] == '.'
    ensures forall t | i + |x.sign| + |x.whole| < t <= i + |x.sign| + |x.whole| + |x.fraction| :: IsDigit(s[t])
  {
    var sp := Spelling(x);
    var a := i + |x.sign|;
    var k := a + |x.whole|;
    assert forall t | i <= t < i + |sp| :: s[t] == sp[t - i];
    assert forall u | 0 <= u < |x.whole| :: sp[|x.sign| + u] == x.whole[u];
    assert sp[|x.sign| + |x.whole|] == '.';
    assert forall u | 0 <= u < |x.fraction| :: sp[|x.sign| + |x.whole| + 1 + u] == x.fraction[u];
    forall t | a <= t < k
      ensures IsDigit(s[t])
    {
      assert s[t] == x.whole[t - a];
    }
    forall t | k < t <= k + |x.fraction|
      ensures IsDigit(s[t])
    {
      assert s[t] == x.fraction[t - k - 1];
    }
    if x.sign == [] {
      assert s[i] == sp[0];
      assert sp[0] == '.' || sp[0] == x.whole[0];
    } else {
      assert s[i] == x.sign[0];
    }
  }

  /** Any decimal lexeme spelled at `i` puts its point where the greedy
      reading puts it (index `k`), and its fraction fits inside the greedy
      fraction. */
  lemma DecimalComplete(s: string, i: nat, j: nat, k: nat)
    requires i <= |s| && j == i + |SignAt(s, i)| && k == j + DigitRun(s, j)
    ensures forall x: Lexeme | x.Decimal? && SpelledAt(s, i, x) ::
      k < |s| && s[k] == '.' && 0 < |x.fraction| <= DigitRun(s, k + 1)
      && i + |Spelling(x)| == k + 1 + |x.fraction|
  {
    forall x: Lexeme | x.Decimal? && SpelledAt(s, i, x)
      ensures k < |s| && s[k] == '.' && 0 < |x.fraction| <= DigitRun(s, k + 1)
        && i + |Spelling(x)| == k + 1 + |x.fraction|
    {
      DecimalSpellingChars(s, i, x);
      DigitRunAtLeast(s, j, |x.whole|);
      assert DigitRun(s, j) == |x.whole|;
      DigitRunAtLeast(s, k + 1, |x.fraction|);
    }
  }

  /** The first alternative, `[-+]?\d*\.\d+`, at index `i`. Backtracking
      cannot help it: fewer digits before the point leave a digit where the
      point must be. It matches whenever some decimal is spelled at `i`, and
      then takes the longest one. */
  function DecimalAt(s: string, i: nat): (m: Option<Lexeme>)
    requires i <= |s|
    ensures m.Some? ==> m.value.Decimal? && SpelledAt(s, i, m.value)
    ensures m.Some? ==> var e := i + |Spelling(m.value)|; e == |s| || !IsDigit(s[e])
    ensures forall x: Lexeme | x.Decimal? && SpelledAt(s, i, x) ::
      m.Some? && |Spelling(x)| <= |Spelling(m.value)|
  {
    var sign := SignAt(s, i);
    var j := i + |sign|;
    var k := j + DigitRun(s, j);
    if k < |s| && s[k] == '.' && DigitRun(s, k + 1) > 0 then
      var e := k + 1 + DigitRun(s, k + 1);
      DecimalGreedy(s, i, j, k, e);
      Some(Decimal(sign, s[j..k], s[k + 1..e]))
    else
      DecimalAbsent(s, i, j, k);
      None
  }

  /** The greedy reading, when it finds a point followed by digits, spells
      the longest decimal at `i`. */
  lemma DecimalGreedy(s: string, i: nat, j: nat, k: nat, e: nat)
    requires i <= |s| && j == i + |SignAt(s, i)| && k == j + DigitRun(s, j)
    requires k < |s| && s[k] == '.' && DigitRun(s, k + 1) > 0 && e == k + 1 + DigitRun(s, k + 1)
    ensures var x := Decimal(SignAt(s, i), s[j..k], s[k + 1..e]);
      SpelledAt(s, i, x) && i + |Spelling(x)| == e && (e == |s| || !IsDigit(s[e]))
      && forall y: Lexeme | y.Decimal? && SpelledAt(s, i, y) :: |Spelling(y)| <= |Spelling(x)|
  {
    var x := Decimal(SignAt(s, i), s[j..k], s[k + 1..e]);
    DecimalSpelled(s, i, j, k, e);
    assert i + |Spelling(x)| == e;
    DecimalComplete(s, i, j, k);
  }

  /** When the greedy reading finds no point followed by a digit, no decimal
      is spelled at `i`. */
  lemma DecimalAbsent(s: string, i: nat, j: nat, k: nat)
    requires i <= |s| && j == i + |SignAt(s, i)| && k == j + DigitRun(s, j)
    requires !(k < |s| && s[k] == '.' && DigitRun(s, k + 1) > 0)
    ensures forall y: Lexeme | y.Decimal? && SpelledAt(s, i, y) :: false
  {
    DecimalComplete(s, i, j, k);
  }

  /** The first alternative needs a decimal point. */
  lemma DecimalNeedsPoint(s: string, i: nat)
    requires i <= |s|
    requires forall t | i <= t < |s| :: s[t] != '.'
    ensures DecimalAt(s, i).None?
  {
  }

  /** Any digit string spelled at `i` fits inside the greedy run. */
  lemma IntegerComplete(s: string, i: nat)
    requires i <= |s|
    ensures forall x: Lexeme | x.Integer? && SpelledAt(s, i, x) :: 0 < |x.digits| <= DigitRun(s, i)
  {
    forall x: Lexeme | x.Integer? && SpelledAt(s, i, x)
      ensures 0 < |x.digits| <= DigitRun(s, i)
    {
      forall t | i <= t < i + |x.digits|
        ensures IsDigit(s[t])
      {
        assert s[t] == x.digits[t - i];
      }
      DigitRunAtLeast(s, i, |x.digits|);
    }
  }

  /** The second alternative, `\d+`, at index `i`: the longest run of digits. */
  function IntegerAt(s: string, i: nat): (m: Option<Lexeme>)
    requires i <= |s|
    ensures m.Some? ==> m.value.Integer? && SpelledAt(s, i, m.value)
    ensures m.Some? ==> var e := i + |m.value.digits|; e == |s| || !IsDigit(s[e])
    ensures m.None? <==> i == |s| || !IsDigit(s[i])
    ensures forall x: Lexeme | x.Integer? && SpelledAt(s, i, x) ::
      m.Some? && |x.digits| <= |m.value.digits|
  {
    IntegerComplete(s, i);
    var n := DigitRun(s, i);
    if n > 0 then Some(Integer(s[i..i + n])) else None
  }

  /** A decimal spelled at `i` is longer than the digits at `i`: a sign is
      no digit, and the point ends the run. */
  lemma DecimalOutrunsDigits(s: string, i: nat, x: Lexeme)
    requires x.Decimal? && SpelledAt(s, i, x)
    ensures DigitRun(s, i) < |Spelling(x)|
  {
    DecimalSpellingChars(s, i, x);
    if x.sign == [] {
      DigitRunAtLeast(s, i, |x.whole|);
    }
  }

  /** The match of the pattern starting exactly at index `i`; the first
      alternative is preferred, and the digits alone are taken only when no
      decimal is spelled at `i`. Every match starts with a sign, a point or a
      digit. */
  function MatchAt(s: string, i: nat): (m: Option<Lexeme>)
    requires i <= |s|
    ensures m.Some? ==> SpelledAt(s, i, m.value)
    ensures m.Some? ==> var e := i + |Spelling(m.value)|; e == |s| || !IsDigit(s[e])
    ensures forall x: Lexeme | SpelledAt(s, i, x) :: m.Some? && |Spelling(x)| <= |Spelling(m.value)|
    ensures forall x: Lexeme | x.Decimal? && SpelledAt(s, i, x) :: m.Some? && m.value.Decimal?
    ensures m.Some? && m.value.Integer? ==> forall x: Lexeme | x.Decimal? :: !SpelledAt(s, i, x)
  {
    match DecimalAt(s, i)
    case Some(x) =>
      DecimalLongest(s, i, x);
      Some(x)
    case None =>
      DigitsLongest(s, i);
      IntegerAt(s, i)
  }

  /** A decimal found at `i` is at least as long as anything spelled there. */
  lemma DecimalLongest(s: string, i: nat, x: Lexeme)
    requires i <= |s| && DecimalAt(s, i) == Some(x)
    ensures forall y: Lexeme | SpelledAt(s, i, y) :: |Spelling(y)| <= |Spelling(x)|
  {
    DecimalOutrunsDigits(s, i, x);
    IntegerComplete(s, i);
  }

  /** Without a decimal at `i`, the digits found there are at least as long
      as anything spelled there. */
  lemma DigitsLongest(s: string, i: nat)
    requires i <= |s| && DecimalAt(s, i).None?
    ensures forall y: Lexeme | y.Decimal? :: !SpelledAt(s, i, y)
    ensures forall y: Lexeme | SpelledAt(s, i, y) ::
      IntegerAt(s, i).Some? && |Spelling(y)| <= |Spelling(IntegerAt(s, i).value)|
  {
  }


  /** `re.search`: the leftmost index at or after `i` where the pattern matches. */
  function SearchNumber(s: string, i: nat): (m: Option<(nat, Lexeme)>)
    requires i <= |s|
    ensures m.Some? ==> WellFormed(m.value.1)
    ensures m.Some? ==> (i <= m.value.0 <= |s| && MatchAt(s, m.value.0) == Some(m.value.1)
      && forall k | i <= k < m.value.0 :: MatchAt(s, k).None?)
    ensures m.None? ==> forall k | i <= k <= |s| :: MatchAt(s, k).None?
    decreases |s| - i
  {
    var here := MatchAt(s, i);
    if here.Some? then Some((i, here.value))
    else if i == |s| then None
    else
      var rest := SearchNumber(s, i + 1);
      assert forall k | i <= k < i + 1 :: MatchAt(s, k).None?;
      rest
  }

  /** The cell text `clean_num` searches: lower-cased, decimal comma turned
      into a point, "kg" and "cm" removed, trimmed. */
  function NumberText(val: string): string
  {
    Strip(RemoveAll(RemoveAll(ReplaceChar(Lower(val), ',', '.'), "kg"), "cm"))
  }

  /** The pattern matches `x` at `k` in `t` and nowhere before `k`. */
  predicate FirstMatch(t: string, k: nat, x: Lexeme)
  {
    k <= |t| && MatchAt(t, k) == Some(x) && forall j | 0 <= j < k :: MatchAt(t, j).None?
  }

  /** The leftmost match is the one the search finds. */
  lemma FirstMatchIsFound(t: string)
    ensures forall k: nat, x: Lexeme | FirstMatch(t, k, x) :: SearchNumber(t, 0) == Some((k, x))
  {
    forall k: nat, x: Lexeme | FirstMatch(t, k, x)
      ensures SearchNumber(t, 0) == Some((k, x))
    {
      FirstMatchFound(t, k, x);
    }
  }

  lemma FirstMatchFound(t: string, k: nat, x: Lexeme)
    requires FirstMatch(t, k, x)
    ensures SearchNumber(t, 0) == Some((k, x))
  {
    var m := SearchNumber(t, 0);
    if m.Some? {
      assert FirstMatch(t, m.value.0, m.value.1);
      FirstMatchUnique(t, k, x, m.value.0, m.value.1);
    }
  }

  /** There is only one leftmost match. */
  lemma FirstMatchUnique(t: string, k: nat, x: Lexeme, k': nat, x': Lexeme)
    requires FirstMatch(t, k, x) && FirstMatch(t, k', x')
    ensures k == k' && x == x'
  {
  }

  /** `clean_num`: the value of the first number in the cell, 0.0 for an
      empty cell or one without any. */
  function CleanNum(val: string): (r: real)
    ensures val == [] ==> r == 0.0
    ensures val != [] ==> forall k: nat, x: Lexeme | FirstMatch(NumberText(val), k, x) ::
      WellFormed(x) && r == LexemeValue(x)
    ensures val != [] && (forall k | 0 <= k <= |NumberText(val)| :: MatchAt(NumberText(val), k).None?) ==>
      r == 0.0
  {
    FirstMatchIsFound(NumberText(val));
    if val == [] then 0.0
    else match SearchNumber(NumberText(val), 0)
      case None => 0.0
      case Some((_, x)) => LexemeValue(x)
  }

  /** The run of digits at `i` is exactly `n` long when `n` digits follow `i`
      and then a non-digit or the end. */
  lemma DigitRunExact(s: string, i: nat, n: nat)
    requires i + n <= |s|
    requires forall k | i <= k < i + n :: IsDigit(s[k])
    requires i + n == |s| || !IsDigit(s[i + n])
    ensures DigitRun(s, i) == n
  {
  }

  /** Every match contains a digit at or after its start. */
  lemma MatchNeedsDigit(s: string, i: nat)
    requires i <= |s| && MatchAt(s, i).Some?
    ensures exists k | i <= k < |s| :: IsDigit(s[k])
  {
    var x := MatchAt(s, i).value;
    if x.Integer? {
      assert s[i..i + |x.digits|] == x.digits;
      assert s[i] == x.digits[0];
    } else {
      DecimalSpellingChars(s, i, x);
      assert IsDigit(s[i + |x.sign| + |x.whole| + 1]);
    }
  }

  /** A cell without any digit reads as 0.0. */
  lemma CleanNumNoDigits(val: string)
    requires forall i | 0 <= i < |val| :: !IsDigit(val[i])
    ensures CleanNum(val) == 0.0
  {
    if val != [] {
      NumberTextNoDigits(val);
      SearchNeedsDigit(NumberText(val));
    }
  }

  /** Cleaning the text of a cell brings in no digit. */
  lemma NumberTextNoDigits(val: string)
    requires forall i | 0 <= i < |val| :: !IsDigit(val[i])
    ensures forall x | x in NumberText(val) :: !IsDigit(x)
  {
    var u := ReplaceChar(Lower(val), ',', '.');
    assert forall x | x in u :: !IsDigit(x);
  }

  /** Text without digits holds no number. */
  lemma SearchNeedsDigit(t: string)
    requires forall x | x in t :: !IsDigit(x)
    ensures SearchNumber(t, 0).None?
  {
    if SearchNumber(t, 0).Some? {
      MatchNeedsDigit(t, SearchNumber(t, 0).value.0);
    }
  }

  /** Strings made only of digits, signs and points, with a digit or a point
      at the end, are searched as they are. */
  predicate NumeralChars(x: string)
  {
    forall i | 0 <= i < |x| :: IsDigit(x[i]) || x[i] == '.' || x[i] == '-' || x[i] == '+'
  }

  lemma NumberTextUnchanged(x: string)
    requires NumeralChars(x)
    ensures NumberText(x) == x
  {
    assert Lower(x) == x;
    assert ReplaceChar(x, ',', '.') == x;
    if Contains(x, "kg") {
      ContainsFirstChar(x, "kg");
    }
    RemoveAllAbsent(x, "kg");
    if Contains(x, "cm") {
      ContainsFirstChar(x, "cm");
    }
    RemoveAllAbsent(x, "cm");
    StripUnchanged(x);
  }

  /** A natural number written in decimal reads back as itself. */
  lemma CleanNumNatural(n: nat)
    ensures CleanNum(NatToString(n)) == n as real
  {
    var s := NatToString(n);
    IntegerMatch(s);
    assert NumeralChars(s);
    CleanNumOfNumeral(s, Integer(s));
    NatToStringValue(n);
  }

  /** A string of digits matches as one integer. */
  lemma IntegerMatch(s: string)
    requires |s| > 0 && AllDigits(s)
    ensures MatchAt(s, 0) == Some(Integer(s))
  {
    DigitRunExact(s, 0, |s|);
    DecimalNeedsPoint(s, 0);
    assert s[0..|s|] == s;
  }

  /** A minus sign before a number without a decimal point is dropped: the
      first alternative needs a point, so the match starts after the sign. */
  lemma CleanNumDropsIntegerSign(n: nat)
    ensures CleanNum("-" + NatToString(n)) == n as real
  {
    var d := NatToString(n);
    var s := "-" + d;
    assert NumeralChars(s) by {
      assert forall t | 1 <= t < |s| :: s[t] == d[t - 1];
    }
    SearchSkipsSign(d);
    CleanNumOfFound(s, 1, Integer(d));
    NatToStringValue(n);
  }

  /** The search over a minus sign and digits finds the digits alone. */
  lemma SearchSkipsSign(d: string)
    requires |d| > 0 && AllDigits(d)
    ensures SearchNumber("-" + d, 0) == Some((1, Integer(d)))
  {
    var s := "-" + d;
    assert forall t | 0 <= t < |d| :: s[1 + t] == d[t];
    DigitRunExact(s, 1, |d|);
    DecimalNeedsPoint(s, 0);
    DecimalNeedsPoint(s, 1);
    assert MatchAt(s, 0).None?;
    assert s[1..|s|] == d;
    assert MatchAt(s, 1) == Some(Integer(d));
  }

  /** A cell the search leaves unchanged reads as the first match found in it. */
  lemma CleanNumOfFound(val: string, i: nat, x: Lexeme)
    requires val != [] && NumeralChars(val)
    requires SearchNumber(val, 0) == Some((i, x))
    ensures CleanNum(val) == LexemeValue(x)
  {
    NumberTextUnchanged(val);
  }

  /** A cell the search leaves unchanged reads as its first match. */
  lemma CleanNumOfNumeral(val: string, x: Lexeme)
    requires val != [] && NumeralChars(val)
    requires MatchAt(val, 0) == Some(x)
    ensures CleanNum(val) == LexemeValue(x)
  {
    NumberTextUnchanged(val);
  }

  lemma DecimalAtStart(sign: string, whole: string, fraction: string)
    requires sign in {"", "-", "+"} && AllDigits(whole) && |fraction| > 0 && AllDigits(fraction)
    ensures DecimalAt(sign + whole + "." + fraction, 0) == Some(Decimal(sign, whole, fraction))
  {
    var s := sign + whole + "." + fraction;
    var j := |sign|;
    var k := j + |whole|;
    DecimalLayout(sign, whole, fraction);
    DecimalSign(sign, whole, fraction);
    DigitRunExact(s, j, |whole|);
    DigitRunExact(s, k + 1, |fraction|);
    DecimalAtParts(s, j, k);
  }

  /** The optional sign of a written decimal is its own sign. */
  lemma DecimalSign(sign: string, whole: string, fraction: string)
    requires sign in {"", "-", "+"} && AllDigits(whole)
    ensures SignAt(sign + whole + "." + fraction, 0) == sign
  {
    var s := sign + whole + "." + fraction;
    assert sign == "" ==> s[0] == '.' || IsDigit(s[0]);
  }

  /** Where the parts of a written decimal sit. */
  lemma DecimalLayout(sign: string, whole: string, fraction: string)
    requires AllDigits(whole) && AllDigits(fraction)
    ensures var s := sign + whole + "." + fraction;
      var j := |sign|;
      var k := j + |whole|;
      k < |s| && s[..j] == sign && s[j..k] == whole && s[k] == '.' && s[k + 1..] == fraction &&
      (forall t | j <= t < k :: IsDigit(s[t])) && (forall t | k < t < |s| :: IsDigit(s[t]))
  {
    var s := sign + whole + "." + fraction;
    var j := |sign|;
    var k := j + |whole|;
    assert forall t | j <= t < k :: s[t] == whole[t - j];
    assert forall t | k < t < |s| :: s[t] == fraction[t - k - 1];
  }

  /** The first alternative read off its parts: sign, digits, point, digits
      to the end of the string. */
  lemma DecimalAtParts(s: string, j: nat, k: nat)
    requires j <= k < |s| && s[k] == '.'
    requires |SignAt(s, 0)| == j && DigitRun(s, j) == k - j && DigitRun(s, k + 1) == |s| - (k + 1) > 0
    ensures DecimalAt(s, 0) == Some(Decimal(SignAt(s, 0), s[j..k], s[k + 1..]))
  {
    var e := k + 1 + DigitRun(s, k + 1);
    assert e == |s| && s[k + 1..e] == s[k + 1..];
  }

  /** A signed decimal with a non-empty fraction reads back as its exact
      value, sign included. */
  lemma CleanNumDecimal(sign: string, whole: string, fraction: string)
    requires sign in {"", "-", "+"} && AllDigits(whole) && |fraction| > 0 && AllDigits(fraction)
    ensures CleanNum(sign + whole + "." + fraction) == LexemeValue(Decimal(sign, whole, fraction))
  {
    var s := sign + whole + "." + fraction;
    DecimalAtStart(sign, whole, fraction);
    DecimalLayout(sign, whole, fraction);
    assert NumeralChars(s) by {
      assert |sign| > 0 ==> s[0] == sign[0];
    }
    CleanNumOfNumeral(s, Decimal(sign, whole, fraction));
  }

  /** A weight as a coach types it, with a decimal comma and the unit, reads
      as the decimal: "72,5 kg" gives 72.5. */
  lemma CleanNumCommaUnit(whole: string, fraction: string)
    requires |whole| > 0 && AllDigits(whole) && |fraction| > 0 && AllDigits(fraction)
    ensures CleanNum(whole + "," + fraction + " kg") == LexemeValue(Decimal("", whole, fraction))
  {
    var point := whole + "." + fraction;
    assert "" + whole == whole;
    CleanNumDecimal("", whole, fraction);
    CommaUnitText(whole, fraction);
    PointNumeral(whole, fraction);
    NumberTextUnchanged(point);
    CleanNumSameText(whole + "," + fraction + " kg", point);
  }

  lemma PointNumeral(whole: string, fraction: string)
    requires AllDigits(whole) && AllDigits(fraction)
    ensures NumeralChars(whole + "." + fraction)
  {
    var point := whole + "." + fraction;
    assert forall i | 0 <= i < |point| :: point[i] == '.' || IsDigit(point[i]) by {
      DecimalLayout("", whole, fraction);
      assert "" + whole == whole;
    }
  }

  /** The text `clean_num` searches in "w,f kg" is "w.f". */
  lemma CommaUnitText(whole: string, fraction: string)
    requires |whole| > 0 && AllDigits(whole) && |fraction| > 0 && AllDigits(fraction)
    ensures NumberText(whole + "," + fraction + " kg") == whole + "." + fraction
  {
    var point := whole + "." + fraction;
    CommaBecomesPoint(whole, fraction);
    assert 'k' !in point && 'c' !in point by {
      DecimalLayout("", whole, fraction);
      assert forall i | 0 <= i < |point| :: point[i] != 'k' && point[i] != 'c';
    }
    UnitRemoved(point);
    StripTrailingSpace(point);
  }

  /** Lower-casing and the comma-to-point step turn "w,f kg" into "w.f kg". */
  lemma CommaBecomesPoint(whole: string, fraction: string)
    requires AllDigits(whole) && AllDigits(fraction)
    ensures ReplaceChar(Lower(whole + "," + fraction + " kg"), ',', '.') == whole + "." + fraction + " kg"
  {
    var typed := whole + "," + fraction + " kg";
    assert Lower(typed) == typed;
  }

  /** Removing "kg" and then "cm" from a written decimal followed by " kg"
      leaves the decimal and the space. */
  lemma UnitRemoved(point: string)
    requires 'k' !in point && 'c' !in point
    ensures RemoveAll(RemoveAll(point + " kg", "kg"), "cm") == point + " "
  {
    KgRemoved(point);
    assert 'c' !in point + " ";
    CmAbsent(point + " ");
  }

  lemma KgRemoved(point: string)
    requires 'k' !in point
    ensures RemoveAll(point + " kg", "kg") == point + " "
  {
    RemoveAllAfter(point, " kg", "kg");
    assert RemoveAll(" kg", "kg") == " " by {
      assert " kg"[..2] != "kg" && " kg"[1..] == "kg";
      assert "kg"[..2] == "kg" && "kg"[2..] == "";
    }
  }

  lemma CmAbsent(t: string)
    requires 'c' !in t
    ensures RemoveAll(t, "cm") == t
  {
    if Contains(t, "cm") {
      ContainsFirstChar(t, "cm");
    }
    RemoveAllAbsent(t, "cm");
  }

  /** `clean_num` depends on the cell only through the text it searches. */
  lemma CleanNumSameText(x: string, y: string)
    requires x != [] && y != [] && NumberText(x) == NumberText(y)
    ensures CleanNum(x) == CleanNum(y)
  {
  }

  /** Upper and lower case read alike: the cell is lower-cased first. */
  lemma CleanNumIgnoresCase(val: string)
    ensures CleanNum(Lower(val)) == CleanNum(val)
  {
    if val != [] {
      LowerIdempotent(val);
      CleanNumSameText(Lower(val), val);
    }
  }

  /** A space in front of the cell changes nothing: the text is trimmed
      before the search. */
  lemma CleanNumIgnoresLeadingSpace(val: string)
    ensures CleanNum(" " + val) == CleanNum(val)
  {
    if val == [] {
      BlankCellReadsZero();
      assert " " + val == " ";
    } else {
      NumberTextLeadingSpace(val);
      CleanNumSameText(" " + val, val);
    }
  }

  lemma BlankCellReadsZero()
    ensures CleanNum(" ") == 0.0
  {
    BlankCellText();
    assert MatchAt([], 0).None?;
  }

  lemma BlankCellText()
    ensures NumberText(" ") == []
  {
    NumberTextLeadingSpace([]);
    assert Lower([]) == [] && ReplaceChar([], ',', '.') == [];
  }

  lemma NumberTextLeadingSpace(val: string)
    ensures NumberText(" " + val) == NumberText(val)
  {
    var sp := " ";
    assert Lower(sp + val) == sp + Lower(val);
    var u := ReplaceChar(Lower(val), ',', '.');
    assert ReplaceChar(sp + Lower(val), ',', '.') == sp + u;
    RemoveAllAfter(sp, u, "kg");
    var v := RemoveAll(u, "kg");
    RemoveAllAfter(sp, v, "cm");
    StripLeadingSpace(RemoveAll(v, "cm"));
  }

  lemma DigitsValueFive()
    ensures DigitsValue("5") == 5
  {
    assert "5"[..0] == [];
  }

  /** An illustration of `CleanNumDecimal`: "-5.5" keeps its sign. */
  lemma CleanNumKeepsDecimalSign(decimal: string)
    requires decimal == "-5.5"
    ensures CleanNum(decimal) == -5.5
  {
    var five := "5";
    assert "-" + five + "." + five == decimal by {
      assert |decimal| == 4;
    }
    MinusFiveHalf(Decimal("-", five, five));
    CleanNumDecimal("-", five, five);
  }

  lemma MinusFiveHalf(x: Lexeme)
    requires x == Decimal("-", "5", "5")
    ensures WellFormed(x) && LexemeValue(x) == -5.5
  {
    DigitsValueFive();
    assert Pow10(|x.fraction|) == 10;
    assert LexemeValue(x) == -(5.0 + 5.0 / 10.0);
  }

}
