/** The path parameter `:id` of the id-based routes, read with JavaScript's
    `parseInt(text)` (no radix argument) and rejected when the result is `NaN`.

    `parseInt` skips leading white space, takes one optional sign, switches to
    base 16 after a `0x`/`0X` prefix, and then reads the longest run of digits
    of that base, ignoring whatever follows; with no digit at all the result is
    `NaN`, here `None`. */
module IdParam {
  import opened Wrappers
  import opened JsText

  predicate IsDecimalDigit(c: char)
  {
    '0' <= c <= '9'
  }

  /** A digit of base `radix`; `parseInt` without a radix only ever uses 10 or 16. */
  predicate IsRadixDigit(c: char, radix: nat)
  {
    if radix == 16 then IsDecimalDigit(c) || 'a' <= c <= 'f' || 'A' <= c <= 'F'
    else IsDecimalDigit(c)
  }

  function DigitValue(c: char): (v: nat)
    requires IsRadixDigit(c, 16)
    ensures v < 16
    ensures IsDecimalDigit(c) ==> v < 10
  {
    if IsDecimalDigit(c) then c as nat - '0' as nat
    else if 'a' <= c <= 'f' then c as nat - 'a' as nat + 10
    else c as nat - 'A' as nat + 10
  }

  /** `s` without its leading white space. */
  function TrimStart(s: string): (t: string)
    ensures |t| <= |s| && t == s[|s| - |t|..]
    ensures t == [] || !IsJsSpace(t[0])
    ensures forall k | 0 <= k < |s| - |t| :: IsJsSpace(s[k])
  {
    if s != [] && IsJsSpace(s[0]) then TrimStart(s[1..]) else s
  }

  /** Length of the longest prefix of `s` made of digits of base `radix`. */
  function DigitRun(s: string, radix: nat): (n: nat)
    ensures n <= |s|
    ensures forall k | 0 <= k < n :: IsRadixDigit(s[k], radix)
    ensures n < |s| ==> !IsRadixDigit(s[n], radix)
  {
    if s != [] && IsRadixDigit(s[0], radix) then 1 + DigitRun(s[1..], radix) else 0
  }

  /** The value of the numeral `z` in base `radix`, most significant digit first. */
  function NumeralValue(z: string, radix: nat): nat
    requires forall k | 0 <= k < |z| :: IsRadixDigit(z[k], radix)
  {
    if z == [] then 0
    else
      assert IsRadixDigit(z[|z| - 1], radix);
      NumeralValue(z[..|z| - 1], radix) * radix + DigitValue(z[|z| - 1])
  }

  /** `parseInt(s)`, with `None` for `NaN`. */
  function ParseInt(s: string): Option<int>
  {
    ParseSigned(TrimStart(s))
  }

  /** One optional sign, then an unsigned numeral. */
  function ParseSigned(t: string): Option<int>
  {
    if t != [] && t[0] == '-' then
      match ParseUnsigned(t[1..])
      case None => None
      case Some(v) => Some(-v)
    else if t != [] && t[0] == '+' then ParseUnsigned(t[1..])
    else ParseUnsigned(t)
  }

  /** A `0x`/`0X` prefix selects base 16, otherwise base 10; then the longest
      run of digits of that base, which must not be empty. */
  function ParseUnsigned(u: string): Option<int>
  {
    var hex := |u| >= 2 && u[0] == '0' && (u[1] == 'x' || u[1] == 'X');
    var radix := if hex then 16 else 10;
    var w := if hex then u[2..] else u;
    var n := DigitRun(w, radix);
    if n == 0 then None else Some(NumeralValue(w[..n], radix))
  }

  // ---------------------------------------------------------------------------
  // Decimal rendering, the way a client writes an id into a path

  function DecimalDigit(d: nat): char
    requires d < 10
  {
    ('0' as nat + d) as char
  }

  function ShowNat(n: nat): string
  {
    if n < 10 then [DecimalDigit(n)] else ShowNat(n / 10) + [DecimalDigit(n % 10)]
  }

  /** `String(n)` for an integer `n`. */
  function Show(n: int): string
  {
    if n < 0 then "-" + ShowNat(-n) else ShowNat(n)
  }

  /** The decimal rendering of `n` is a numeral whose value is `n`, with no
      leading zero unless it is "0" itself. */
  lemma {:induction false} ShowNatIsNumeral(n: nat)
    ensures |ShowNat(n)| >= 1
    ensures forall k | 0 <= k < |ShowNat(n)| :: IsDecimalDigit(ShowNat(n)[k])
    ensures NumeralValue(ShowNat(n), 10) == n
    ensures ShowNat(n)[0] == '0' ==> n == 0 && ShowNat(n) == "0"
  {
    if n >= 10 {
      ShowNatIsNumeral(n / 10);
      var z := ShowNat(n);
      assert z[..|z| - 1] == ShowNat(n / 10);
      assert z[0] == ShowNat(n / 10)[0];
    }
  }

  /** A decimal numeral without a leading zero (or "0" alone), followed by
      anything but a digit or, after "0", an 'x': its value. */
  lemma ParseUnsignedNumeral(z: string, junk: string)
    requires z != [] && forall k | 0 <= k < |z| :: IsDecimalDigit(z[k])
    requires z[0] == '0' ==> |z| == 1 && (junk == [] || (junk[0] != 'x' && junk[0] != 'X'))
    requires junk == [] || !IsDecimalDigit(junk[0])
    ensures ParseUnsigned(z + junk) == Some(NumeralValue(z, 10))
  {
    var u := z + junk;
    assert u[..|z|] == z;
    assert !(|u| >= 2 && u[0] == '0' && (u[1] == 'x' || u[1] == 'X')) by {
      if |u| >= 2 && u[0] == '0' { assert u[1] == junk[0]; }
    }
    var n := DigitRun(u, 10);
    assert n == |z|;
  }

  /** The rendering of a non-negative `m`, followed by `junk`, as an unsigned numeral. */
  lemma ParseShowNat(m: nat, junk: string)
    requires junk == [] || !IsDecimalDigit(junk[0])
    requires m == 0 ==> junk == [] || (junk[0] != 'x' && junk[0] != 'X')
    ensures ShowNat(m) + junk != [] && IsDecimalDigit((ShowNat(m) + junk)[0])
    ensures ParseUnsigned(ShowNat(m) + junk) == Some(m)
  {
    ShowNatIsNumeral(m);
    ParseUnsignedNumeral(ShowNat(m), junk);
  }

  /** A '-' in front of an unsigned numeral negates what `parseInt` reads. */
  lemma ParseIntMinus(u: string, v: int)
    requires ParseUnsigned(u) == Some(v)
    ensures ParseInt(['-'] + u) == Some(-v)
  {
    var s := ['-'] + u;
    assert s[0] == '-' && s[1..] == u;
    TrimStartNoSpace(s);
  }

  lemma ShowNegative(n: int, junk: string)
    requires n < 0
    ensures Show(n) + junk == ['-'] + (ShowNat(-n) + junk)
  {
  }

  lemma ParseIntReadsNegative(n: int, junk: string)
    requires n < 0
    requires junk == [] || !IsDecimalDigit(junk[0])
    ensures ParseInt(Show(n) + junk) == Some(n)
  {
    var m: nat := -n;
    ParseShowNat(m, junk);
    ParseIntMinus(ShowNat(m) + junk, m);
    ShowNegative(n, junk);
  }

  lemma ParseSignedDigit(u: string)
    requires u != [] && IsDecimalDigit(u[0])
    ensures ParseSigned(u) == ParseUnsigned(u)
  {
  }

  lemma TrimStartNoSpace(u: string)
    requires u != [] && (u[0] == '-' || IsDecimalDigit(u[0]))
    ensures TrimStart(u) == u
  {
    assert !IsJsSpace(u[0]);
  }

  lemma ParseIntReadsNonNegative(n: nat, junk: string)
    requires junk == [] || !IsDecimalDigit(junk[0])
    requires n == 0 ==> junk == [] || (junk[0] != 'x' && junk[0] != 'X')
    ensures ParseInt(Show(n) + junk) == Some(n)
  {
    var s := ShowNat(n) + junk;
    assert Show(n) == ShowNat(n);
    ParseShowNat(n, junk);
    TrimStartNoSpace(s);
    ParseSignedDigit(s);
  }

  /** `parseInt` reads back any integer the way it is written, and ignores
      what follows the numeral (so "12abc" gives 12); the one exception is a
      "0" followed by an 'x', which starts a hexadecimal numeral. */
  lemma ParseIntReadsNumeral(n: int, junk: string)
    requires junk == [] || !IsDecimalDigit(junk[0])
    requires n == 0 ==> junk == [] || (junk[0] != 'x' && junk[0] != 'X')
    ensures ParseInt(Show(n) + junk) == Some(n)
  {
    if n < 0 {
      ParseIntReadsNegative(n, junk);
    } else {
      ParseIntReadsNonNegative(n, junk);
    }
  }

  /** White space before the numeral makes no difference. */
  lemma {:induction false} ParseIntSkipsSpace(ws: string, s: string)
    requires forall k | 0 <= k < |ws| :: IsJsSpace(ws[k])
    ensures ParseInt(ws + s) == ParseInt(s)
  {
    TrimStartSkips(ws, s);
  }

  lemma {:induction false} TrimStartSkips(ws: string, s: string)
    requires forall k | 0 <= k < |ws| :: IsJsSpace(ws[k])
    ensures TrimStart(ws + s) == TrimStart(s)
  {
    if ws != [] {
      assert (ws + s)[0] == ws[0];
      assert (ws + s)[1..] == ws[1..] + s;
      assert forall k | 0 <= k < |ws[1..]| :: ws[1..][k] == ws[k + 1];
      TrimStartSkips(ws[1..], s);
    } else {
      assert ws + s == s;
    }
  }

  /** Text without a single decimal digit is `NaN`, so the route answers 400. */
  lemma NoDigitIsNaN(s: string)
    requires forall k | 0 <= k < |s| :: !IsDecimalDigit(s[k])
    ensures ParseInt(s) == None
  {
    var t := TrimStart(s);
    assert forall k | 0 <= k < |t| :: t[k] == s[|s| - |t| + k];
    var u := if t != [] && (t[0] == '-' || t[0] == '+') then t[1..] else t;
    assert u != [] ==> !IsDecimalDigit(u[0]) by {
      if u != [] && t != [] && (t[0] == '-' || t[0] == '+') { assert u[0] == t[1]; }
    }
  }
}
