/**
 * Bookmark labels. add_bookmark stores the label f"Page {p + 1}" for page p, and
 * go_to_bookmark reads a label back with int(label.split()[-1]) - 1. This module
 * models the three pieces of Python involved: str() of an int, str.split() with no
 * separator, and int() of a token. The point is the round trip LabelRoundTrip.
 */
module Labels {
  import opened Wrappers

  /** The Python exceptions that reading a label back can raise. */
  datatype PyError = TypeError | IndexError | ValueError

  /** Python's str.isspace() for a single character. */
  predicate IsSpace(c: char) {
    || c == ' '
    || '\t' <= c <= '\r'
    || '\U{1c}' <= c <= '\U{1f}'
    || c == '\U{85}' || c == '\U{a0}' || c == '\U{1680}'
    || '\U{2000}' <= c <= '\U{200a}'
    || c == '\U{2028}' || c == '\U{2029}' || c == '\U{202f}' || c == '\U{205f}' || c == '\U{3000}'
  }

  predicate NoSpace(s: string) {
    forall i :: 0 <= i < |s| ==> !IsSpace(s[i])
  }

  predicate IsDigit(c: char) {
    '0' <= c <= '9'
  }

  function DigitValue(c: char): (d: nat)
    requires IsDigit(c)
    ensures d < 10
  {
    (c as int) - ('0' as int)
  }

  function DigitChar(d: nat): (c: char)
    requires d < 10
    ensures IsDigit(c) && DigitValue(c) == d
  {
    (('0' as int) + d) as char
  }

  // ---------------------------------------------------------------------------
  // str() of an int: decimal, no leading zeros, a '-' in front of negatives

  function ShowNat(n: nat): (s: string)
    ensures |s| > 0
    ensures forall i :: 0 <= i < |s| ==> IsDigit(s[i])
  {
    if n < 10 then [DigitChar(n)] else ShowNat(n / 10) + [DigitChar(n % 10)]
  }

  /** str() of an int is one non-empty word, starting with '-' exactly for negatives. */
  function ShowInt(n: int): (s: string)
    ensures |s| > 0 && NoSpace(s)
    ensures s[0] == '-' <==> n < 0
  {
    if n < 0 then "-" + ShowNat(-n) else ShowNat(n)
  }

  /** The label add_bookmark stores for page `page` (pages count from 0, labels from 1). */
  function BookmarkLabel(page: int): (r: string)
    ensures Words(r) == ["Page", ShowInt(page + 1)]
  {
    var digits := ShowInt(page + 1);
    assert "Page " + digits == "Page" + " " + digits;
    WordsOfPair("Page", digits);
    "Page " + digits
  }

  // ---------------------------------------------------------------------------
  // str.split() with no separator: maximal runs of non-whitespace, in order

  /** The longest prefix of `s` without whitespace. */
  function TakeWord(s: string): (w: string)
    ensures w <= s
    ensures NoSpace(w)
    ensures |w| == |s| || IsSpace(s[|w|])
  {
    if s == [] || IsSpace(s[0]) then [] else [s[0]] + TakeWord(s[1..])
  }

  function Words(s: string): (ws: seq<string>)
    ensures forall i :: 0 <= i < |ws| ==> |ws[i]| > 0 && NoSpace(ws[i])
    decreases |s|
  {
    if s == [] then []
    else if IsSpace(s[0]) then Words(s[1..])
    else
      var w := TakeWord(s);
      [w] + Words(s[|w|..])
  }

  // ---------------------------------------------------------------------------
  // int() of a whitespace-free token: an optional sign, then ASCII digits in
  // groups separated by single underscores; leading zeros are allowed

  predicate IsDigitOrUnderscore(c: char) {
    IsDigit(c) || c == '_'
  }

  predicate IsDigitGroups(s: string) {
    && |s| > 0
    && (forall i :: 0 <= i < |s| ==> IsDigitOrUnderscore(s[i]))
    && IsDigit(s[0])
    && IsDigit(s[|s| - 1])
    && (forall i :: 0 <= i < |s| - 1 ==> s[i] == '_' ==> s[i + 1] != '_')
  }

  /** The value of the digits of `s`, underscores skipped. */
  function DigitsValue(s: string): nat
    requires forall i :: 0 <= i < |s| ==> IsDigitOrUnderscore(s[i])
  {
    if s == [] then 0
    else
      var init, last := s[..|s| - 1], s[|s| - 1];
      assert IsDigitOrUnderscore(last);
      if last == '_' then DigitsValue(init) else 10 * DigitsValue(init) + DigitValue(last)
  }

  /** Python's int(token); None where int() raises ValueError. */
  function ParseInt(token: string): (r: Option<int>)
    ensures r.Some? ==> |token| > 0 && IsDigit(token[|token| - 1])
    ensures r.Some? && r.value < 0 ==> token[0] == '-'
  {
    if |token| > 0 && (token[0] == '+' || token[0] == '-') then
      var digits := token[1..];
      if IsDigitGroups(digits) then
        var v: int := DigitsValue(digits);
        Some(if token[0] == '-' then -v else v)
      else None
    else if IsDigitGroups(token) then Some(DigitsValue(token))
    else None
  }

  /** What go_to_bookmark computes from a label: int(title.split()[-1]) - 1. */
  function PageOfLabel(title: string): (r: Result<int, PyError>)
    ensures r == Failure(IndexError) <==> forall i :: 0 <= i < |title| ==> IsSpace(title[i])
    ensures r.Failure? ==> r.error != TypeError
  {
    WordsEmptyIffBlank(title);
    var ws := Words(title);
    if |ws| == 0 then Failure(IndexError)
    else
      match ParseInt(ws[|ws| - 1])
      case None => Failure(ValueError)
      case Some(v) => Success(v - 1)
  }

  // ---------------------------------------------------------------------------
  // Lemmas

  lemma {:induction false} TakeWordOfPrefix(w: string, rest: string)
    requires NoSpace(w)
    requires rest == [] || IsSpace(rest[0])
    ensures TakeWord(w + rest) == w
  {
    if w == [] {
      assert w + rest == rest;
    } else {
      assert (w + rest)[0] == w[0];
      assert (w + rest)[1..] == w[1..] + rest;
      TakeWordOfPrefix(w[1..], rest);
    }
  }

  /** A whitespace-free word splits to itself. */
  lemma WordsOfWord(w: string)
    requires |w| > 0 && NoSpace(w)
    ensures Words(w) == [w]
  {
    TakeWordOfPrefix(w, []);
    assert w + [] == w;
    assert w[|w|..] == [];
  }

  /** Two words joined by one space split back into those two words. */
  lemma WordsOfPair(a: string, b: string)
    requires |a| > 0 && NoSpace(a)
    requires |b| > 0 && NoSpace(b)
    ensures Words(a + " " + b) == [a, b]
  {
    var s := a + " " + b;
    assert s == a + (" " + b);
    TakeWordOfPrefix(a, " " + b);
    assert s[0] == a[0];
    assert s[|a|..] == " " + b;
    assert (" " + b)[1..] == b;
    WordsOfWord(b);
  }

  /** str.split() returns no word exactly for a string of whitespace only. */
  lemma {:induction false} WordsEmptyIffBlank(s: string)
    ensures Words(s) == [] <==> forall i :: 0 <= i < |s| ==> IsSpace(s[i])
    decreases |s|
  {
    if s != [] {
      if IsSpace(s[0]) {
        WordsEmptyIffBlank(s[1..]);
        assert forall i :: 1 <= i < |s| ==> s[i] == s[1..][i - 1];
      } else {
        assert Words(s) != [];
      }
    }
  }

  /** int() reads the digits str() writes. */
  lemma {:induction false} DigitsValueOfShowNat(n: nat)
    ensures DigitsValue(ShowNat(n)) == n
  {
    var s := ShowNat(n);
    if n < 10 {
      assert s[..|s| - 1] == [];
    } else {
      assert s[..|s| - 1] == ShowNat(n / 10);
      DigitsValueOfShowNat(n / 10);
    }
  }

  /** int(str(n)) == n for every int n. */
  lemma ParseShowInt(n: int)
    ensures ParseInt(ShowInt(n)) == Some(n)
  {
    var t := ShowInt(n);
    if n < 0 {
      assert t[1..] == ShowNat(-n);
      DigitsValueOfShowNat(-n);
    } else {
      assert IsDigit(t[0]);
      DigitsValueOfShowNat(n);
    }
  }

  /** Reading back the label written for any page gives that page. */
  lemma LabelRoundTrip(page: int)
    ensures PageOfLabel(BookmarkLabel(page)) == Success(page)
  {
    ParseShowInt(page + 1);
  }

  /** Different pages get different labels. */
  lemma LabelInjective(p: int, q: int)
    requires BookmarkLabel(p) == BookmarkLabel(q)
    ensures p == q
  {
    LabelRoundTrip(p);
    LabelRoundTrip(q);
  }

  /** A label without any word makes go_to_bookmark raise IndexError. */
  lemma BlankLabelRaises()
    ensures PageOfLabel("") == Failure(IndexError)
    ensures PageOfLabel(" \t ") == Failure(IndexError)
  {
    assert Words(" \t ") == Words("\t ") == Words(" ") == Words("");
  }

  /** A label whose last word is not an integer makes go_to_bookmark raise ValueError. */
  lemma WordyLabelRaises()
    ensures PageOfLabel("Page ten") == Failure(ValueError)
  {
    assert "Page ten" == "Page" + " " + "ten";
    WordsOfPair("Page", "ten");
  }

  /** int() accepts more than str() writes: leading zeros and single underscores. */
  lemma LeadingZerosParse()
    ensures ParseInt("007") == Some(7)
  {
    assert "007"[..2] == "00" && "00"[..1] == "0" && "0"[..0] == "";
    assert DigitsValue("007") == 7;
    assert IsDigitGroups("007");
  }

  lemma UnderscoresParse()
    ensures ParseInt("1_0") == Some(10)
    ensures ParseInt("1__0") == None
  {
    assert "1_0"[..2] == "1_" && "1_"[..1] == "1" && "1"[..0] == "";
    assert DigitsValue("1_0") == 10;
    assert IsDigitGroups("1_0");
    assert !IsDigitGroups("1__0") by { assert "1__0"[1] == '_' && "1__0"[2] == '_'; }
  }

  lemma LabelWithLeadingZerosReadsBack()
    ensures PageOfLabel("Page 007") == Success(6)
    ensures PageOfLabel("Page 1_0") == Success(9)
  {
    assert "Page 007" == "Page" + " " + "007";
    WordsOfPair("Page", "007");
    LeadingZerosParse();
    assert "Page 1_0" == "Page" + " " + "1_0";
    WordsOfPair("Page", "1_0");
    UnderscoresParse();
  }
}
