/** Field-level text handling of the edge file: whitespace trimming, the
    digit-string test, the decimal value of a digit string (stoi on the
    strings that pass the test) and the clamp of a convenience score. */
module TextFields {
  import opened CostModel

  /** The characters trim removes: space, tab, carriage return, line feed. */
  predicate IsSpace(c: char)
  {
    c == ' ' || c == '\t' || c == '\r' || c == '\n'
  }

  /** isdigit in the C locale: the ten ASCII digits. */
  predicate IsDigit(c: char)
  {
    '0' <= c <= '9'
  }

  ghost predicate AllSpace(s: string)
  {
    forall k :: 0 <= k < |s| ==> IsSpace(s[k])
  }

  /** s without its leading whitespace. */
  function TrimStart(s: string): string
  {
    if |s| > 0 && IsSpace(s[0]) then TrimStart(s[1..]) else s
  }

  /** s without its trailing whitespace. */
  function TrimEnd(s: string): string
  {
    if |s| > 0 && IsSpace(s[|s| - 1]) then TrimEnd(s[..|s| - 1]) else s
  }

  /** TrimStart keeps a suffix of s, cuts only whitespace, and what it
      keeps does not start with whitespace. */
  lemma {:induction false} TrimStartShape(s: string)
    ensures |TrimStart(s)| <= |s| && TrimStart(s) == s[|s| - |TrimStart(s)|..]
    ensures AllSpace(s[..|s| - |TrimStart(s)|])
    ensures TrimStart(s) != [] ==> !IsSpace(TrimStart(s)[0])
    decreases |s|
  {
    if |s| > 0 && IsSpace(s[0]) {
      var t := s[1..];
      TrimStartShape(t);
      var r := TrimStart(t);
      assert TrimStart(s) == r;
      assert t[|t| - |r|..] == s[|s| - |r|..];
      var cut := s[..|s| - |r|];
      assert cut == [s[0]] + t[..|t| - |r|];
      forall k | 0 <= k < |cut|
        ensures IsSpace(cut[k])
      {
        if k > 0 {
          assert cut[k] == t[..|t| - |r|][k - 1];
        }
      }
    }
  }

  /** TrimEnd keeps a prefix of s, cuts only whitespace, and what it keeps
      does not end with whitespace. */
  lemma {:induction false} TrimEndShape(s: string)
    ensures |TrimEnd(s)| <= |s| && TrimEnd(s) == s[..|TrimEnd(s)|]
    ensures AllSpace(s[|TrimEnd(s)|..])
    ensures TrimEnd(s) != [] ==> !IsSpace(TrimEnd(s)[|TrimEnd(s)| - 1])
    decreases |s|
  {
    if |s| > 0 && IsSpace(s[|s| - 1]) {
      var t := s[..|s| - 1];
      TrimEndShape(t);
      var r := TrimEnd(t);
      assert TrimEnd(s) == r;
      assert t[..|r|] == s[..|r|];
      var cut := s[|r|..];
      assert cut == t[|r|..] + [s[|s| - 1]];
      forall k | 0 <= k < |cut|
        ensures IsSpace(cut[k])
      {
        if k < |cut| - 1 {
          assert cut[k] == t[|r|..][k];
        }
      }
    }
  }

  /** What trim leaves of s. */
  function Trimmed(s: string): string
  {
    TrimEnd(TrimStart(s))
  }

  /** Once the first i characters are whitespace and s[i] is not (or s
      ends), TrimStart cuts exactly those i characters. */
  lemma {:induction false} TrimStartAt(s: string, i: int)
    requires 0 <= i <= |s| && AllSpace(s[..i]) && (i < |s| ==> !IsSpace(s[i]))
    ensures TrimStart(s) == s[i..]
    decreases i
  {
    if i > 0 {
      assert IsSpace(s[..i][0]);
      assert s[1..][..i - 1] == s[1..i];
      assert forall k :: 0 <= k < i - 1 ==> s[1..i][k] == s[..i][k + 1];
      TrimStartAt(s[1..], i - 1);
      assert s[1..][i - 1..] == s[i..];
    }
  }

  /** Once the characters from j on are whitespace and s[j-1] is not (or
      j is 0), TrimEnd keeps exactly the first j characters. */
  lemma {:induction false} TrimEndAt(s: string, j: int)
    requires 0 <= j <= |s| && AllSpace(s[j..]) && (j > 0 ==> !IsSpace(s[j - 1]))
    ensures TrimEnd(s) == s[..j]
    decreases |s| - j
  {
    if j < |s| {
      assert IsSpace(s[j..][|s| - 1 - j]);
      var s' := s[..|s| - 1];
      assert s'[j..] == s[j..|s| - 1];
      assert forall k :: 0 <= k < |s'| - j ==> s'[j..][k] == s[j..][k];
      TrimEndAt(s', j);
      assert s'[..j] == s[..j];
    }
  }

  /** find_first_not_of(" \t\r\n"), with |s| standing for npos. */
  method FirstNonSpace(s: string) returns (i: int)
    ensures 0 <= i <= |s| && AllSpace(s[..i]) && (i < |s| ==> !IsSpace(s[i]))
  {
    i := 0;
    while i < |s| && IsSpace(s[i])
      invariant 0 <= i <= |s| && AllSpace(s[..i])
    {
      assert s[..i + 1] == s[..i] + [s[i]];
      i := i + 1;
    }
  }

  /** find_last_not_of(" \t\r\n") + 1, with npos + 1 wrapping to 0. */
  method EndOfNonSpace(s: string) returns (j: int)
    ensures 0 <= j <= |s| && AllSpace(s[j..]) && (j > 0 ==> !IsSpace(s[j - 1]))
  {
    j := |s|;
    while j > 0 && IsSpace(s[j - 1])
      invariant 0 <= j <= |s| && AllSpace(s[j..])
    {
      assert s[j - 1..] == [s[j - 1]] + s[j..];
      j := j - 1;
    }
  }

  /** trim (lines 93-98): erase everything before the first character that
      is not whitespace, then everything after the last such character. */
  method Trim(s: string) returns (t: string)
    ensures t == Trimmed(s)
  {
    var i := FirstNonSpace(s);
    TrimStartAt(s, i);
    t := s[i..];
    var j := EndOfNonSpace(t);
    TrimEndAt(t, j);
    t := t[..j];
  }

  /** Trimming only cuts whitespace from the two ends: the result is a
      contiguous piece of s, all that was cut is whitespace, and the
      result neither starts nor ends with whitespace. */
  lemma TrimmedIsCore(s: string)
    ensures exists i, j :: 0 <= i <= j <= |s| && Trimmed(s) == s[i..j]
                           && AllSpace(s[..i]) && AllSpace(s[j..])
    ensures Trimmed(s) != [] ==> !IsSpace(Trimmed(s)[0]) && !IsSpace(Trimmed(s)[|Trimmed(s)| - 1])
  {
    var a := TrimStart(s);
    TrimStartShape(s);
    TrimEndShape(a);
    var i := |s| - |a|;
    var j := i + |TrimEnd(a)|;
    assert a == s[i..];
    assert TrimEnd(a) == a[..j - i] == s[i..j];
    assert a[j - i..] == s[j..];
    var r := Trimmed(s);
    if r != [] {
      assert r[0] == a[0];
    }
  }

  /** Trimming twice is trimming once. */
  lemma TrimIdempotent(s: string)
    ensures Trimmed(Trimmed(s)) == Trimmed(s)
  {
    var r := Trimmed(s);
    TrimmedIsCore(s);
    TrimStartAt(r, 0);
    TrimEndAt(r, |r|);
  }

  /** trim maps a string to empty exactly when it is all whitespace. */
  lemma TrimEmptyIffAllSpace(s: string)
    ensures Trimmed(s) == [] <==> AllSpace(s)
  {
    if AllSpace(s) {
      assert s[..|s|] == s;
      TrimStartAt(s, |s|);
    }
    if Trimmed(s) == [] {
      TrimmedIsCore(s);
      var i, j :| 0 <= i <= j <= |s| && Trimmed(s) == s[i..j] && AllSpace(s[..i]) && AllSpace(s[j..]);
      assert i == j;
      forall k | 0 <= k < |s|
        ensures IsSpace(s[k])
      {
        if k < i { assert s[k] == s[..i][k]; } else { assert s[k] == s[j..][k - j]; }
      }
    }
  }

  /** Trimming a core that neither starts nor ends with whitespace, padded
      with whitespace on both sides, gives back exactly the core. */
  lemma TrimPadding(pre: string, core: string, post: string)
    requires AllSpace(pre) && AllSpace(post)
    requires core != [] && !IsSpace(core[0]) && !IsSpace(core[|core| - 1])
    ensures Trimmed(pre + core + post) == core
  {
    var s := pre + core + post;
    assert s[..|pre|] == pre && s[|pre|] == core[0];
    TrimStartAt(s, |pre|);
    var t := s[|pre|..];
    assert t == core + post;
    assert t[|core|..] == post && t[|core| - 1] == core[|core| - 1];
    TrimEndAt(t, |core|);
    assert t[..|core|] == core;
  }

  /** A field padded with a carriage return and blanks, as a CSV line from
      a Windows editor yields, trims to its digits. */
  lemma TrimExamples()
    ensures Trimmed(" 120\r") == "120"
    ensures Trimmed(" \t\r\n") == ""
    ensures Trimmed("a b") == "a b"
  {
    TrimStartAt(" 120\r", 1);
    assert " 120\r"[1..] == "120\r";
    TrimEndAt("120\r", 3);
    TrimStartAt(" \t\r\n", 4);
    TrimStartAt("a b", 0);
    TrimEndAt("a b", 3);
  }

  /** Every character of s is a digit. */
  function AllDigits(s: string): (b: bool)
    ensures b <==> forall k :: 0 <= k < |s| ==> IsDigit(s[k])
  {
    |s| == 0 || (IsDigit(s[0]) && AllDigits(s[1..]))
  }

  /** isNumber (lines 99-104): non-empty and all ASCII digits. */
  function IsNumber(s: string): (b: bool)
    ensures b <==> |s| > 0 && forall k :: 0 <= k < |s| ==> IsDigit(s[k])
  {
    |s| > 0 && AllDigits(s)
  }

  /** No sign is accepted: a field that starts with '-' or '+' fails. */
  lemma SignedRejected(s: string)
    requires |s| > 0 && (s[0] == '-' || s[0] == '+')
    ensures !IsNumber(s)
  {
  }

  lemma IsNumberExamples()
    ensures !IsNumber("") && !IsNumber("abc") && !IsNumber("-10") && !IsNumber("1 2")
    ensures IsNumber("0") && IsNumber("700")
  {
    assert !IsDigit("abc"[0]);
    assert !IsDigit("1 2"[1]);
  }

  /** The value of a digit character. */
  function DigitValue(c: char): (d: int)
    requires IsDigit(c)
    ensures 0 <= d <= 9
  {
    c as int - '0' as int
  }

  /** The digit character of a value below ten. */
  function DigitChar(d: int): (c: char)
    requires 0 <= d <= 9
    ensures IsDigit(c) && DigitValue(c) == d
  {
    ('0' as int + d) as char
  }

  /** The decimal value of a digit string: what stoi returns for it. */
  function DecimalValue(s: string): (v: nat)
    requires AllDigits(s)
  {
    if |s| == 0 then 0 else 10 * DecimalValue(s[..|s| - 1]) + DigitValue(s[|s| - 1])
  }

  /** The shortest decimal spelling of n. */
  function DecimalString(n: nat): (s: string)
    ensures |s| > 0 && AllDigits(s)
  {
    if n < 10 then [DigitChar(n)] else DecimalString(n / 10) + [DigitChar(n % 10)]
  }

  /** Reading back the decimal spelling of n gives n. */
  lemma {:induction false} DecimalRoundTrip(n: nat)
    ensures DecimalValue(DecimalString(n)) == n
  {
    var s := DecimalString(n);
    if n < 10 {
      assert s[..0] == [];
    } else {
      DecimalRoundTrip(n / 10);
      assert s[..|s| - 1] == DecimalString(n / 10);
    }
  }

  /** Leading zeros do not change the value. */
  lemma {:induction false} LeadingZero(s: string)
    requires AllDigits(s)
    ensures AllDigits("0" + s) && DecimalValue("0" + s) == DecimalValue(s)
    decreases |s|
  {
    if |s| > 0 {
      var z := "0" + s;
      assert z[..|z| - 1] == "0" + s[..|s| - 1];
      LeadingZero(s[..|s| - 1]);
    }
  }

  /** The clamp min(max(cv, 0), MAX_CONV) of line 142. */
  function ClampConv(x: int): (r: int)
    ensures 0 <= r <= MAX_CONV
  {
    if x < 0 then 0 else if x > MAX_CONV then MAX_CONV else x
  }

  /** The clamped score is a valid score, equals the input when that is one
      already, and is the nearest bound otherwise. */
  lemma ClampProperties(x: int)
    ensures 0 <= ClampConv(x) <= MAX_CONV
    ensures 0 <= x <= MAX_CONV ==> ClampConv(x) == x
    ensures x > MAX_CONV ==> ClampConv(x) == MAX_CONV
    ensures x < 0 ==> ClampConv(x) == 0
    ensures ClampConv(ClampConv(x)) == ClampConv(x)
  {
  }

  /** On a score read from a digit string only the upper bound can take
      effect: the lower clamp is unreachable. */
  lemma OnlyUpperClampApplies(s: string)
    requires IsNumber(s)
    ensures ClampConv(DecimalValue(s)) == if DecimalValue(s) > MAX_CONV then MAX_CONV else DecimalValue(s)
  {
  }

  lemma ClampExamples()
    ensures ClampConv(DecimalValue("700")) == 600
    ensures ClampConv(DecimalValue("0420")) == 420
  {
    assert "700"[..2] == "70" && "70"[..1] == "7" && "7"[..0] == "";
    assert "0420"[..3] == "042" && "042"[..2] == "04" && "04"[..1] == "0" && "0"[..0] == "";
  }
}
