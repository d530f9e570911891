/**
  * Decimal text for integers: a simplified model of Python's `int(text)` (ParseInt)
  * and `str(n)` (ShowInt) on plain decimal strings.
  *
  * The accepted grammar is: surrounding whitespace, then an optional `+` or `-`,
  * then one or more ASCII digits. Leading zeros are accepted, as Python accepts them.
  * Underscores between digits and non-ASCII digits and whitespace are not modelled.
  */
module Decimal {
  import opened Wrappers

  /** The ASCII whitespace that Python strips around the text given to `int()`. */
  predicate IsSpace(c: char) {
    c == ' ' || c == '\t' || c == '\n' || c == '\r' || c == '\U{000B}' || c == '\U{000C}'
  }

  predicate IsDigit(c: char) {
    '0' <= c <= '9'
  }

  predicate AllDigits(s: string) {
    forall i :: 0 <= i < |s| ==> IsDigit(s[i])
  }

  /** A character that can appear somewhere in text that `int()` accepts. */
  predicate MayAppear(c: char) {
    IsSpace(c) || IsDigit(c) || c == '+' || c == '-'
  }

  function DigitValue(c: char): (d: nat)
    requires IsDigit(c)
    ensures d < 10
  {
    c as int - '0' as int
  }

  function DigitChar(d: nat): (c: char)
    requires d < 10
    ensures IsDigit(c) && DigitValue(c) == d
  {
    ('0' as int + d) as char
  }

  /** The number a run of digits denotes, most significant digit first. */
  function DigitsValue(s: string): nat
    requires AllDigits(s)
  {
    if s == [] then 0 else 10 * DigitsValue(s[..|s| - 1]) + DigitValue(s[|s| - 1])
  }

  /** `s` without its leading whitespace. */
  function TrimStart(s: string): (r: string)
    ensures |r| <= |s| && r == s[|s| - |r|..]
    ensures forall i :: 0 <= i < |s| - |r| ==> IsSpace(s[i])
    ensures r == [] || !IsSpace(r[0])
  {
    if s != [] && IsSpace(s[0]) then
      var r := TrimStart(s[1..]);
      assert s[1..][|s| - 1 - |r|..] == s[|s| - |r|..];
      assert forall i :: 1 <= i < |s| ==> s[i] == s[1..][i - 1];
      r
    else s
  }

  /** `s` without its trailing whitespace. */
  function TrimEnd(s: string): (r: string)
    ensures |r| <= |s| && r == s[..|r|]
    ensures forall i :: |r| <= i < |s| ==> IsSpace(s[i])
    ensures r == [] || !IsSpace(r[|r| - 1])
  {
    if s != [] && IsSpace(s[|s| - 1]) then
      var r := TrimEnd(s[..|s| - 1]);
      assert s[..|s| - 1][..|r|] == s[..|r|];
      assert forall i :: 0 <= i < |s| - 1 ==> s[i] == s[..|s| - 1][i];
      r
    else s
  }

  /** `s` without surrounding whitespace. */
  function Strip(s: string): (r: string)
    ensures r == [] || (!IsSpace(r[0]) && !IsSpace(r[|r| - 1]))
  {
    TrimEnd(TrimStart(s))
  }

  /** Stripping leaves only characters of `s`, and drops nothing but whitespace. */
  lemma StripKeepsNonSpace(s: string)
    ensures forall c :: c in Strip(s) ==> c in s
    ensures forall i :: 0 <= i < |s| && !IsSpace(s[i]) ==> s[i] in Strip(s)
  {
    var t := TrimStart(s);
    KeepsNonSpace(s, t, |s| - |t|);
    KeepsNonSpace(t, Strip(s), 0);
  }

  /** A slice of `s` whose cut-off ends are whitespace keeps every other character of `s`. */
  lemma KeepsNonSpace(s: string, r: string, a: nat)
    requires a <= |s| - |r| && r == s[a..a + |r|]
    requires forall i :: 0 <= i < a ==> IsSpace(s[i])
    requires forall i :: a + |r| <= i < |s| ==> IsSpace(s[i])
    ensures forall c :: c in r ==> c in s
    ensures forall i :: 0 <= i < |s| && !IsSpace(s[i]) ==> s[i] in r
  {
    forall i | 0 <= i < |s| && !IsSpace(s[i]) ensures s[i] in r {
      assert r[i - a] == s[i];
    }
    forall c | c in r ensures c in s {
      var j :| 0 <= j < |r| && r[j] == c;
      assert s[a + j] == c;
    }
  }

  /** Python's `int(s)` on decimal text, or None where it raises ValueError. Accepted
    * text ends, once stripped, in a digit; the value is negative only after a `-`, and
    * never positive after one. */
  function ParseInt(s: string): (r: Option<int>)
    ensures r.Some? ==> Strip(s) != [] && IsDigit(Strip(s)[|Strip(s)| - 1])
    ensures r.Some? && r.value < 0 ==> Strip(s)[0] == '-'
    ensures r.Some? && Strip(s)[0] == '-' ==> r.value <= 0
  {
    ParseSigned(Strip(s))
  }

  /** An optional sign followed by one or more digits, and nothing else. */
  function ParseSigned(t: string): Option<int> {
    if t == [] then None
    else if t[0] == '+' || t[0] == '-' then
      var digits := t[1..];
      if digits != [] && AllDigits(digits) then
        var v: int := DigitsValue(digits);
        Some(if t[0] == '-' then -v else v)
      else None
    else if AllDigits(t) then
      Some(DigitsValue(t))
    else None
  }

  /** Text accepted after stripping holds a digit, and only digits and a leading sign. */
  lemma ParseSignedAlphabet(t: string)
    ensures ParseSigned(t).Some? ==> exists i :: 0 <= i < |t| && IsDigit(t[i])
    ensures (exists i :: 0 <= i < |t| && !MayAppear(t[i])) ==> ParseSigned(t).None?
  {
    if ParseSigned(t).Some? {
      if t[0] == '+' || t[0] == '-' {
        assert IsDigit(t[1]) by { assert t[1] == t[1..][0]; }
        forall i | 0 <= i < |t| ensures MayAppear(t[i]) {
          if i > 0 { assert t[i] == t[1..][i - 1]; }
        }
      } else {
        assert IsDigit(t[0]);
      }
    }
  }

  /** `int()` accepts only text that holds a digit, and rejects text holding any
    * character other than whitespace, digits and signs. */
  lemma ParseIntAlphabet(s: string)
    ensures ParseInt(s).Some? ==> exists i :: 0 <= i < |s| && IsDigit(s[i])
    ensures (exists i :: 0 <= i < |s| && !MayAppear(s[i])) ==> ParseInt(s).None?
  {
    var t := Strip(s);
    StripKeepsNonSpace(s);
    ParseSignedAlphabet(t);
    if ParseInt(s).Some? {
      var i :| 0 <= i < |t| && IsDigit(t[i]);
      assert t[i] in s;
    }
    if exists i :: 0 <= i < |s| && !MayAppear(s[i]) {
      var i :| 0 <= i < |s| && !MayAppear(s[i]);
      assert s[i] in t;
    }
  }

  /** Python's `str(n)` for a non-negative integer: its digits without leading zeros. */
  function ShowNat(n: nat): (s: string)
    ensures s != [] && AllDigits(s)
    ensures |s| > 1 ==> s[0] != '0'
  {
    if n < 10 then [DigitChar(n)] else ShowNat(n / 10) + [DigitChar(n % 10)]
  }

  /** Python's `str(i)`: a minus sign before the digits of a negative number. */
  function ShowInt(i: int): (s: string)
    ensures s != [] && !IsSpace(s[0]) && IsDigit(s[|s| - 1])
    ensures i < 0 ==> s[0] == '-' && |s| > 1 && AllDigits(s[1..]) && DigitsValue(s[1..]) == -i
    ensures i >= 0 ==> AllDigits(s) && DigitsValue(s) == i
  {
    if i < 0 then
      var digits := ShowNat(-i);
      DigitsValueShowNat(-i);
      assert ("-" + digits)[1..] == digits;
      "-" + digits
    else
      DigitsValueShowNat(i);
      ShowNat(i)
  }

  lemma {:induction false} DigitsValueShowNat(n: nat)
    ensures DigitsValue(ShowNat(n)) == n
  {
    if n >= 10 {
      var s := ShowNat(n);
      assert s[..|s| - 1] == ShowNat(n / 10);
      DigitsValueShowNat(n / 10);
    }
  }

  /** Text that neither starts nor ends with whitespace is its own stripped form. */
  lemma StripUnpadded(s: string)
    requires s != [] && !IsSpace(s[0]) && !IsSpace(s[|s| - 1])
    ensures Strip(s) == s
  {
    assert TrimStart(s) == s;
  }

  /** `int()` of text with no surrounding whitespace reads its sign and digits directly. */
  lemma ParseIntUnpadded(s: string)
    requires s != [] && !IsSpace(s[0]) && !IsSpace(s[|s| - 1])
    ensures ParseInt(s) == ParseSigned(s)
  {
    StripUnpadded(s);
  }

  /** Text other than `str(i)`: an explicit plus sign and leading zeros are accepted. */
  lemma NonCanonicalAccepted()
    ensures ParseInt("+5") == Some(5)
    ensures ParseInt("007") == Some(7)
  {
    ParseIntUnpadded("+5");
    assert "+5"[1..] == "5" && "5"[..0] == [];
    ParseIntUnpadded("007");
    assert "007"[..2] == "00" && "00"[..1] == "0" && "0"[..0] == [];
  }

  /** A sign anywhere but in front is rejected. */
  lemma MisplacedSignRejected()
    ensures ParseInt("5-") == None
    ensures ParseInt("1+2") == None
  {
    ParseIntUnpadded("5-");
    assert !IsDigit("5-"[1]);
    ParseIntUnpadded("1+2");
    assert !IsDigit("1+2"[1]);
  }

  /** `int(str(i)) == i` for every integer. */
  lemma ParseShowInt(i: int)
    ensures ParseInt(ShowInt(i)) == Some(i)
  {
    var s := ShowInt(i);
    ParseIntUnpadded(s);
    if i >= 0 {
      assert IsDigit(s[0]);
    }
  }

  lemma {:induction false} TrimStartSkipsPadding(pre: string, s: string)
    requires forall i :: 0 <= i < |pre| ==> IsSpace(pre[i])
    ensures TrimStart(pre + s) == TrimStart(s)
  {
    if pre != [] {
      assert (pre + s)[0] == pre[0];
      assert (pre + s)[1..] == pre[1..] + s;
      TrimStartSkipsPadding(pre[1..], s);
    } else {
      assert pre + s == s;
    }
  }

  lemma {:induction false} TrimEndSkipsPadding(s: string, post: string)
    requires forall i :: 0 <= i < |post| ==> IsSpace(post[i])
    ensures TrimEnd(s + post) == TrimEnd(s)
  {
    if post != [] {
      assert (s + post)[|s + post| - 1] == post[|post| - 1];
      assert (s + post)[..|s + post| - 1] == s + post[..|post| - 1];
      TrimEndSkipsPadding(s, post[..|post| - 1]);
    } else {
      assert s + post == s;
    }
  }

  /** Whitespace after the text survives TrimStart unchanged unless the text is all whitespace. */
  lemma {:induction false} TrimStartKeepsTail(s: string, post: string)
    requires forall i :: 0 <= i < |post| ==> IsSpace(post[i])
    ensures TrimStart(s + post) == if TrimStart(s) == [] then TrimStart(post) else TrimStart(s) + post
  {
    if s != [] && IsSpace(s[0]) {
      assert (s + post)[1..] == s[1..] + post;
      TrimStartKeepsTail(s[1..], post);
    } else if s == [] {
      assert s + post == post;
    }
  }

  /** Whitespace around the text never changes what `int()` makes of it. */
  lemma ParseIntIgnoresPadding(pre: string, s: string, post: string)
    requires forall i :: 0 <= i < |pre| ==> IsSpace(pre[i])
    requires forall i :: 0 <= i < |post| ==> IsSpace(post[i])
    ensures ParseInt(pre + s + post) == ParseInt(s)
  {
    assert pre + s + post == pre + (s + post);
    TrimStartSkipsPadding(pre, s + post);
    TrimStartKeepsTail(s, post);
    if TrimStart(s) == [] {
      assert TrimStart(post) == [] by {
        TrimStartSkipsPadding(post, []);
        assert post + [] == post;
      }
    } else {
      TrimEndSkipsPadding(TrimStart(s), post);
    }
    assert Strip(pre + s + post) == Strip(s);
  }
}
