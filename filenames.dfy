/**
 * The file name saveTree (main.go) gives a saved picture: one more than the
 * largest number N among the names "N.apt" in the working directory, the
 * number read with strconv.Atoi and written with strconv.Itoa. Reading the
 * directory and creating the file are left out; the listing is the
 * parameter `names`. Go's int is taken to be 64 bits wide.
 */
module FileNames {
  import opened Wrappers

  /** The range of Go's int on a 64-bit platform. */
  const MinInt: int := -0x8000_0000_0000_0000
  const MaxInt: int := 0x7fff_ffff_ffff_ffff

  const Suffix: string := ".apt"

  predicate HasSuffix(s: string, suffix: string)
  {
    |suffix| <= |s| && s[|s| - |suffix|..] == suffix
  }

  /** strings.TrimSuffix on a name that has the suffix. */
  function TrimSuffix(s: string, suffix: string): (r: string)
    requires HasSuffix(s, suffix)
    ensures r + suffix == s
  {
    s[..|s| - |suffix|]
  }

  predicate IsDigit(c: char)
  {
    '0' <= c <= '9'
  }

  predicate AllDigits(s: string)
  {
    forall i | 0 <= i < |s| :: IsDigit(s[i])
  }

  /** The value of a run of decimal digits; leading zeros are allowed. */
  function DigitsValue(s: string): nat
    requires AllDigits(s)
  {
    if s == [] then 0 else DigitsValue(s[..|s| - 1]) * 10 + (s[|s| - 1] as int - '0' as int)
  }

  /**
   * strconv.Atoi: an optional sign and then one or more decimal digits,
   * whose value lies in the range of int; None is its error.
   */
  function Atoi(s: string): (r: Option<int>)
    ensures r.Some? ==> MinInt <= r.value <= MaxInt
  {
    if s == [] then None
    else
      var body := if s[0] == '-' || s[0] == '+' then s[1..] else s;
      if body == [] || !AllDigits(body) then None
      else
        var v: int := if s[0] == '-' then -(DigitsValue(body) as int) else DigitsValue(body);
        if MinInt <= v <= MaxInt then Some(v) else None
  }

  function Digit(d: nat): (c: char)
    requires d < 10
    ensures IsDigit(c) && c as int - '0' as int == d
  {
    ('0' as int + d) as char
  }

  /** The decimal digits of n, without leading zeros. */
  function Digits(n: nat): (s: string)
    ensures |s| >= 1 && AllDigits(s)
  {
    if n < 10 then [Digit(n)] else Digits(n / 10) + [Digit(n % 10)]
  }

  /** strconv.Itoa. */
  function Itoa(n: int): string
  {
    if n < 0 then "-" + Digits(-n) else Digits(n)
  }

  /** Reading the digits of n gives n back. */
  lemma {:induction false} DigitsValueOf(n: nat)
    ensures DigitsValue(Digits(n)) == n
  {
    if n >= 10 {
      var s := Digits(n);
      assert s[..|s| - 1] == Digits(n / 10);
      DigitsValueOf(n / 10);
    }
  }

  /** Atoi reads back every number Itoa writes. */
  lemma AtoiItoa(n: int)
    requires MinInt <= n <= MaxInt
    ensures Atoi(Itoa(n)) == Some(n)
  {
    var s := Itoa(n);
    if n < 0 {
      DigitsValueOf(-n);
      assert s[0] == '-' && s[1..] == Digits(-n);
    } else {
      DigitsValueOf(n);
      assert IsDigit(s[0]);
    }
  }

  /** The number saveTree reads from a file name: N for "N.apt", None for any other name. */
  function FileNumber(name: string): (r: Option<int>)
    ensures r.Some? ==> HasSuffix(name, Suffix) && Atoi(TrimSuffix(name, Suffix)) == r
  {
    if HasSuffix(name, Suffix) then Atoi(TrimSuffix(name, Suffix)) else None
  }

  /**
   * The name saveTree writes for a number is read back as that number, and
   * a name without the suffix carries none.
   */
  lemma FileNumberItoa(n: int, name: string)
    requires MinInt <= n <= MaxInt
    ensures FileNumber(Itoa(n) + Suffix) == Some(n)
    ensures !HasSuffix(name, Suffix) ==> FileNumber(name) == None
  {
    var s := Itoa(n) + Suffix;
    assert s[..|s| - |Suffix|] == Itoa(n);
    AtoiItoa(n);
  }

  /**
   * The loop of saveTree over the directory listing: the largest file
   * number, or 0 when no name carries a larger one.
   */
  method BiggestNumber(names: seq<string>) returns (biggest: int)
    ensures 0 <= biggest <= MaxInt
    ensures forall i | 0 <= i < |names| && FileNumber(names[i]).Some? :: FileNumber(names[i]).value <= biggest
    ensures biggest == 0 || exists i | 0 <= i < |names| :: FileNumber(names[i]) == Some(biggest)
  {
    biggest := 0;
    for i := 0 to |names|
      invariant 0 <= biggest <= MaxInt
      invariant forall j | 0 <= j < i && FileNumber(names[j]).Some? :: FileNumber(names[j]).value <= biggest
      invariant biggest == 0 || exists j | 0 <= j < i :: FileNumber(names[j]) == Some(biggest)
    {
      var num := FileNumber(names[i]);
      if num.Some? {
        if num.value > biggest {
          biggest := num.value;
        }
      }
    }
  }

  /** Go's int addition on a 64-bit platform: the sum wraps around to the other end of the range. */
  function AddInt(x: int, y: int): (r: int)
    requires MinInt <= x <= MaxInt && MinInt <= y <= MaxInt
    ensures MinInt <= r <= MaxInt && (r - (x + y)) % 0x1_0000_0000_0000_0000 == 0
  {
    var s := x + y;
    if s > MaxInt then s - 0x1_0000_0000_0000_0000
    else if s < MinInt then s + 0x1_0000_0000_0000_0000
    else s
  }

  /** The save name as saveTree writes it: Itoa(biggestNumber+1) + ".apt" with int addition. */
  function SaveNameAsWritten(biggest: int): string
    requires MinInt <= biggest <= MaxInt
  {
    Itoa(AddInt(biggest, 1)) + Suffix
  }

  /**
   * When the directory holds "9223372036854775807.apt" (the name Itoa gives
   * the largest int, then the suffix), the name saveTree picks carries the
   * number -9223372036854775808: not at least 1, and smaller than the
   * number it was meant to exceed.
   */
  lemma SaveNameOverflows()
    ensures FileNumber(Itoa(MaxInt) + Suffix) == Some(MaxInt)
    ensures FileNumber(SaveNameAsWritten(MaxInt)) == Some(MinInt)
    ensures MinInt < 1 && MinInt < MaxInt
  {
    FileNumberItoa(MaxInt, "");
    assert AddInt(MaxInt, 1) == MinInt;
    FileNumberItoa(MinInt, "");
  }

  /** Below the top of the range the as-written name is the intended one. */
  lemma SaveNameAsWrittenAgrees(biggest: int)
    requires 0 <= biggest < MaxInt
    ensures SaveNameAsWritten(biggest) == SaveName(biggest)
  {
  }

  /**
   * The save name with the increment taken without wrap-around (as
   * strconv.FormatUint(uint64(biggestNumber)+1, 10) would do): the digits of
   * biggest + 1, then ".apt".
   */
  function SaveName(biggest: nat): (name: string)
    ensures HasSuffix(name, Suffix) && AllDigits(TrimSuffix(name, Suffix))
  {
    assert (Digits(biggest + 1) + Suffix)[..|Digits(biggest + 1)|] == Digits(biggest + 1);
    Digits(biggest + 1) + Suffix
  }

  /**
   * The number in the save name is one more than the largest number seen,
   * and the next listing reads exactly that number back from it whenever it
   * fits in an int.
   */
  lemma SaveNameNumber(biggest: nat)
    ensures DigitsValue(TrimSuffix(SaveName(biggest), Suffix)) == biggest + 1
    ensures biggest < MaxInt ==> FileNumber(SaveName(biggest)) == Some(biggest + 1)
  {
    var name := SaveName(biggest);
    assert TrimSuffix(name, Suffix) == Digits(biggest + 1);
    DigitsValueOf(biggest + 1);
    if biggest < MaxInt {
      AtoiItoa(biggest + 1);
    }
  }

  /**
   * saveTree's choice of name as written. While every number in the listing
   * lies below the largest int, its number is at least 1 and larger than
   * every number listed, and the name is new. When the largest int is
   * listed, the increment wraps and the name carries the smallest int.
   */
  method SaveTreeNameAsWritten(names: seq<string>) returns (name: string)
    ensures (forall i | 0 <= i < |names| && FileNumber(names[i]).Some? :: FileNumber(names[i]).value < MaxInt) ==>
      HasSuffix(name, Suffix) && AllDigits(TrimSuffix(name, Suffix)) &&
      DigitsValue(TrimSuffix(name, Suffix)) >= 1 &&
      (forall i | 0 <= i < |names| && FileNumber(names[i]).Some? ::
        FileNumber(names[i]).value < DigitsValue(TrimSuffix(name, Suffix))) &&
      name !in names && FileNumber(name) == Some(DigitsValue(TrimSuffix(name, Suffix)))
    ensures (exists i | 0 <= i < |names| :: FileNumber(names[i]) == Some(MaxInt)) ==> FileNumber(name) == Some(MinInt)
  {
    var biggest := BiggestNumber(names);
    name := SaveNameAsWritten(biggest);
    if biggest < MaxInt {
      SaveNameAsWrittenAgrees(biggest);
      SaveNameNumber(biggest);
    } else {
      SaveNameOverflows();
    }
  }

  /**
   * saveTree's choice of name with the increment taken without wrap-around:
   * its number is at least 1 and larger than every number in the listing,
   * and unless that number is beyond the range of int the name is not one of
   * the existing names.
   */
  method SaveTreeName(names: seq<string>) returns (name: string)
    ensures HasSuffix(name, Suffix) && AllDigits(TrimSuffix(name, Suffix))
    ensures DigitsValue(TrimSuffix(name, Suffix)) >= 1
    ensures forall i | 0 <= i < |names| && FileNumber(names[i]).Some? ::
      FileNumber(names[i]).value < DigitsValue(TrimSuffix(name, Suffix))
    ensures DigitsValue(TrimSuffix(name, Suffix)) <= MaxInt ==>
      name !in names && FileNumber(name) == Some(DigitsValue(TrimSuffix(name, Suffix)))
  {
    var biggest := BiggestNumber(names);
    name := SaveName(biggest);
    SaveNameNumber(biggest);
  }
}
