module Wrappers {
  datatype Option<+T> = None | Some(value: T)
}

/** Go's strconv.Itoa and strconv.Atoi on a 64-bit int. */
module Decimal {
  import opened Wrappers

  const MIN_INT: int := -0x8000_0000_0000_0000
  const MAX_INT: int := 0x7FFF_FFFF_FFFF_FFFF

  predicate InRange(n: int) {
    MIN_INT <= n <= MAX_INT
  }

  predicate AllDigits(s: string) {
    forall i :: 0 <= i < |s| ==> '0' <= s[i] <= '9'
  }

  function Value(s: string): nat
    requires AllDigits(s)
  {
    if s == [] then 0
    else 10 * Value(s[..|s| - 1]) + (s[|s| - 1] as int - '0' as int)
  }

  /** An optional sign, then at least one digit and nothing else, then the range check. */
  function Atoi(s: string): (r: Option<int>)
    ensures r.Some? ==> InRange(r.value)
  {
    var signed := s != [] && (s[0] == '-' || s[0] == '+');
    var digits := if signed then s[1..] else s;
    if digits == [] || !AllDigits(digits) then None
    else
      var magnitude: int := Value(digits);
      var v := if signed && s[0] == '-' then -magnitude else magnitude;
      if InRange(v) then Some(v) else None
  }

  function Digits(n: nat): (s: string)
    ensures s != [] && AllDigits(s)
    ensures Value(s) == n
  {
    var last := [(n % 10 + '0' as int) as char];
    if n < 10 then
      assert last[..0] == [];
      last
    else
      var s := Digits(n / 10) + last;
      assert s[..|s| - 1] == Digits(n / 10);
      s
  }

  function Itoa(n: int): string {
    if n < 0 then "-" + Digits(-n) else Digits(n)
  }

  /** A digit behind a text is ten times as much and the digit; zeros in front count for nothing. */
  lemma {:induction false} ValueOfDigits(s: string, c: char)
    requires AllDigits(s) && '0' <= c <= '9'
    ensures Value(s + [c]) == 10 * Value(s) + (c as int - '0' as int)
    ensures Value("0" + s) == Value(s)
    ensures Value("") == 0
  {
    assert (s + [c])[..|s|] == s;
    if s != [] {
      var n := |s| - 1;
      ValueOfDigits(s[..n], s[n]);
      assert ("0" + s)[..|s|] == "0" + s[..n];
    }
  }

  /** Digits are a number up to the end of the range, alone or behind one sign. */
  lemma AtoiOfDigits(s: string)
    requires AllDigits(s) && s != ""
    ensures var v: int := Value(s);
            && Atoi(s) == Atoi("+" + s) == (if v <= 0x7FFF_FFFF_FFFF_FFFF then Some(v) else None)
            && Atoi("-" + s) == (if v <= 0x8000_0000_0000_0000 then Some(-v) else None)
  {
    assert s[0] != '-' && s[0] != '+';
    assert ("+" + s)[1..] == s && ("-" + s)[1..] == s;
    hide Value, AllDigits;
  }

  /** No other text is a number: not the empty one, not a sign alone, none with anything but digits
      behind its sign. */
  lemma AtoiOfNoDigits(s: string)
    requires AllDigits(s) ==> s == ""
    ensures Atoi("+" + s).None? && Atoi("-" + s).None?
    ensures s == "" || s[0] !in {'+', '-'} ==> Atoi(s).None?
  {
    assert ("+" + s)[1..] == s && ("-" + s)[1..] == s;
    hide Value, AllDigits;
  }

  lemma TwelveIsRead()
    ensures AllDigits("12") && Value("12") == 12
  {
    assert "1"[..0] == "" && "12"[..1] == "1";
  }

  lemma SevenIsRead()
    ensures AllDigits("007") && Value("007") == 7
  {
    assert "0"[..0] == "" && "00"[..1] == "0" && "007"[..2] == "00";
    assert Value("0") == 0;
  }

  /** 12, -12 and +007 are numbers, and 1x is not. */
  lemma AtoiExamples()
    ensures Atoi("12") == Some(12) && Atoi("-12") == Some(-12) && Atoi("+007") == Some(7) && Atoi("1x").None?
  {
    hide Value, AllDigits, Atoi;
    assert Atoi("12") == Some(12) && Atoi("-12") == Some(-12) by {
      TwelveIsRead();
      AtoiOfDigits("12");
      assert "-" + "12" == "-12";
    }
    assert Atoi("+007") == Some(7) by {
      SevenIsRead();
      AtoiOfDigits("007");
      assert "+" + "007" == "+007";
    }
    assert Atoi("1x").None? by {
      LetterIsNoDigit();
      AtoiOfNoDigits("1x");
    }
  }

  lemma LetterIsNoDigit()
    ensures !AllDigits("1x")
  {
    assert "1x"[1] == 'x';
  }

  lemma ItoaExamples()
    ensures Itoa(120) == "120" && Itoa(-5) == "-5"
  {
    assert Digits(1) == "1" && Digits(12) == "12";
  }

  /** The printed text is the one without zeros in front. */
  lemma {:induction false} DigitsAreShort(n: nat)
    ensures Digits(n)[0] == '0' ==> n == 0
  {
    if n >= 10 {
      DigitsAreShort(n / 10);
      assert Digits(n)[0] == Digits(n / 10)[0];
    }
  }

  /** Parsing undoes printing for every int the machine can hold. */
  lemma AtoiOfItoa(n: int)
    requires InRange(n)
    ensures Atoi(Itoa(n)) == Some(n)
  {
    hide Digits;
    if n < 0 {
      assert Itoa(n)[1..] == Digits(-n);
    } else {
      assert '0' <= Digits(n)[0] <= '9';
    }
  }
}
