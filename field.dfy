/** Field decoding for the fixed-layout ATA roster file.

    Every numeric field of the file is a short window of ASCII bytes that the
    parser copies into a zero-filled buffer and hands to `strtol` with base 10,
    casting the result to `unsigned short`. This module models that decode
    exactly (white space, optional sign, digits, stop at the first non-digit or
    at the buffer's NUL, 0 when there are no digits, wrap modulo 2^16) and
    proves what it reads, together with the 3-digit encoding it inverts. */
module Field {

  /** One byte of the file. */
  type Byte = b: int | 0 <= b < 256

  /** The values of a C++ `unsigned short`. */
  type UShort = n: int | 0 <= n < 0x1_0000

  const NUL: Byte := 0
  const TAB: Byte := 9
  const LF: Byte := 10
  const CR: Byte := 13
  const SPACE: Byte := 32
  const PLUS: Byte := 43
  const MINUS: Byte := 45
  const ZERO: Byte := 48

  /** C `isspace` in the "C" locale: space, tab, LF, VT, FF and CR. */
  predicate IsSpace(b: Byte) { b == SPACE || TAB <= b <= CR }

  predicate IsDigit(b: Byte) { ZERO <= b <= ZERO + 9 }

  predicate IsSign(b: Byte) { b == PLUS || b == MINUS }

  predicate AllSpaces(s: seq<Byte>) { forall i :: 0 <= i < |s| ==> IsSpace(s[i]) }

  predicate AllDigits(s: seq<Byte>) { forall i :: 0 <= i < |s| ==> IsDigit(s[i]) }

  /** The text that a zero-filled C buffer holding the window `w` represents:
      the window up to, not including, its first NUL byte. */
  function CString(w: seq<Byte>): seq<Byte>
  {
    if w == [] || w[0] == NUL then [] else [w[0]] + CString(w[1..])
  }

  /** What remains after the leading white space that `strtol` skips
      (`SkipSpaceSkips`). */
  function SkipSpace(s: seq<Byte>): seq<Byte>
  {
    if s != [] && IsSpace(s[0]) then SkipSpace(s[1..]) else s
  }

  /** The number of decimal digits at the front of `s` (`DigitRunStops`). */
  function DigitRun(s: seq<Byte>): (n: nat)
    ensures n <= |s|
  {
    if s != [] && IsDigit(s[0]) then 1 + DigitRun(s[1..]) else 0
  }

  /** The decimal value of a run of digits, most significant digit first. */
  function DigitsValue(d: seq<Byte>): int
  {
    if d == [] then 0 else 10 * DigitsValue(d[..|d| - 1]) + (d[|d| - 1] - ZERO)
  }

  function Pow10(n: nat): nat
  {
    if n == 0 then 1 else 10 * Pow10(n - 1)
  }

  /** `strtol(s, nullptr, 10)` on the C string `s`: leading white space, an
      optional sign, then as many decimal digits as follow; when no digit
      follows the result is 0. (At most a handful of digits are ever read, so
      the `long` range is never exceeded.) */
  function StrToL(s: seq<Byte>): int
  {
    SignedDigits(SkipSpace(s))
  }

  /** The optional sign and the digits that `strtol` reads once the white
      space is skipped. */
  function SignedDigits(t: seq<Byte>): int
  {
    var negative := t != [] && t[0] == MINUS;
    var u := if t != [] && IsSign(t[0]) then t[1..] else t;
    var v := DigitsValue(u[..DigitRun(u)]);
    if negative then -v else v
  }

  /** The value a sign (none, `+` or `-`) and a run of digits stand for. */
  function SignedValue(sign: seq<Byte>, digits: seq<Byte>): int
  {
    var v := DigitsValue(digits);
    if sign == [MINUS] then -v else v
  }

  /** `static_cast<unsigned short>` of a `long`: reduction modulo 2^16. */
  function ToUShort(v: int): (r: UShort)
    ensures (v - r) % 0x1_0000 == 0
    ensures 0 <= v < 0x1_0000 ==> r == v
  {
    v % 0x1_0000
  }

  /** A count field: the window is copied into a zero-filled buffer, decoded
      with `strtol` and cast to `unsigned short`. It never fails. */
  function DecodeCount(w: seq<Byte>): UShort
  {
    ToUShort(StrToL(CString(w)))
  }

  /** The three ASCII digits, zero padded, that a count below 1000 is written as. */
  function EncodeCount(n: nat): (w: seq<Byte>)
    requires n < 1000
    ensures |w| == 3 && AllDigits(w)
  {
    [ZERO + n / 100, ZERO + n / 10 % 10, ZERO + n % 10]
  }

  /** The concatenation of a sequence of lines. */
  function Concat(ws: seq<seq<Byte>>): seq<Byte>
  {
    if ws == [] then [] else ws[0] + Concat(ws[1..])
  }

  // ---------------------------------------------------------------------------
  // Lemmas about the decoder

  /** The C string is the part of the window before its first NUL: a prefix
      of the window with no NUL in it, followed in the window by a NUL or by
      nothing. */
  lemma {:induction false} CStringStopsAtNul(w: seq<Byte>)
    ensures |CString(w)| <= |w| && CString(w) == w[..|CString(w)|]
    ensures NUL !in CString(w)
    ensures |CString(w)| < |w| ==> w[|CString(w)|] == NUL
  {
    if w != [] && w[0] != NUL {
      CStringStopsAtNul(w[1..]);
      var s := CString(w[1..]);
      assert CString(w) == [w[0]] + s;
      assert w[..|s| + 1] == [w[0]] + w[1..][..|s|];
    }
  }

  /** `SkipSpace` drops exactly the leading white space: what it drops is
      all white space and what it keeps is a suffix that does not start
      with white space. */
  lemma {:induction false} SkipSpaceSkips(s: seq<Byte>)
    ensures |SkipSpace(s)| <= |s| && SkipSpace(s) == s[|s| - |SkipSpace(s)|..]
    ensures AllSpaces(s[..|s| - |SkipSpace(s)|])
    ensures SkipSpace(s) != [] ==> !IsSpace(SkipSpace(s)[0])
  {
    if s != [] && IsSpace(s[0]) {
      SkipSpaceSkips(s[1..]);
      var t := SkipSpace(s[1..]);
      assert s[1..][|s| - 1 - |t|..] == s[|s| - |t|..];
      forall i | 0 <= i < |s| - |t| ensures IsSpace(s[i]) {
        if i > 0 {
          assert s[..|s| - |t|][i] == s[1..][..|s| - 1 - |t|][i - 1];
        }
      }
    }
  }

  /** `DigitRun` counts the leading digits: they are all digits, and the
      byte after them, if any, is not one. */
  lemma {:induction false} DigitRunStops(s: seq<Byte>)
    ensures AllDigits(s[..DigitRun(s)])
    ensures DigitRun(s) < |s| ==> !IsDigit(s[DigitRun(s)])
  {
    if s != [] && IsDigit(s[0]) {
      DigitRunStops(s[1..]);
      var n := DigitRun(s[1..]);
      forall i | 0 <= i < n + 1 ensures IsDigit(s[i]) {
        if i > 0 {
          assert s[1..][..n][i - 1] == s[i];
        }
      }
    }
  }

  lemma {:induction false} CStringAppend(p: seq<Byte>, q: seq<Byte>)
    requires NUL !in p
    ensures CString(p + q) == p + CString(q)
  {
    if p != [] {
      assert (p + q)[0] == p[0] && p[0] != NUL;
      assert (p + q)[1..] == p[1..] + q;
      assert CString(p + q) == [p[0]] + CString(p[1..] + q);
      CStringAppend(p[1..], q);
      assert [p[0]] + p[1..] == p;
    } else {
      assert p + q == q;
    }
  }

  lemma {:induction false} SkipSpaceAppend(sp: seq<Byte>, rest: seq<Byte>)
    requires AllSpaces(sp)
    requires rest == [] || !IsSpace(rest[0])
    ensures SkipSpace(sp + rest) == rest
  {
    if sp != [] {
      assert (sp + rest)[0] == sp[0];
      assert (sp + rest)[1..] == sp[1..] + rest;
      SkipSpaceAppend(sp[1..], rest);
    }
  }

  lemma {:induction false} DigitRunAppend(digits: seq<Byte>, tail: seq<Byte>)
    requires AllDigits(digits)
    requires tail == [] || !IsDigit(tail[0])
    ensures DigitRun(digits + tail) == |digits|
  {
    if digits != [] {
      assert (digits + tail)[0] == digits[0];
      assert (digits + tail)[1..] == digits[1..] + tail;
      DigitRunAppend(digits[1..], tail);
    }
  }

  lemma DigitsValueSingle(b: Byte)
    requires IsDigit(b)
    ensures DigitsValue([b]) == b - ZERO
  {
    assert [b][..0] == [];
  }

  /** A run of `n` digits is worth less than 10^n: a 3-byte count field holds
      at most 999. */
  lemma {:induction false} DigitsValueBound(d: seq<Byte>)
    requires AllDigits(d)
    ensures 0 <= DigitsValue(d) < Pow10(|d|)
  {
    if d != [] {
      DigitsValueBound(d[..|d| - 1]);
    }
  }

  /** The tail that may follow a number without changing what is read: it
      does not continue the digits and, when neither a sign nor a digit came
      before it, it does not start the number itself. */
  predicate EndsNumber(sign: seq<Byte>, digits: seq<Byte>, tail: seq<Byte>)
  {
    (tail == [] || !IsDigit(tail[0]))
    && (sign == [] && digits == [] ==> tail == [] || (!IsSpace(tail[0]) && !IsSign(tail[0])))
  }

  predicate IsSignField(sign: seq<Byte>) { sign == [] || sign == [PLUS] || sign == [MINUS] }

  /** How `strtol` reads a number: white space `sp`, an optional sign, a run of
      digits, and a tail that does not continue the number. The result is the
      signed value of the digits, whatever the tail holds; with no digits it is
      0. */
  lemma {:induction false} StrToLReadsNumber(sp: seq<Byte>, sign: seq<Byte>, digits: seq<Byte>, tail: seq<Byte>)
    requires AllSpaces(sp) && IsSignField(sign) && AllDigits(digits)
    requires EndsNumber(sign, digits, tail)
    ensures StrToL(sp + sign + digits + tail) == SignedValue(sign, digits)
  {
    var rest := sign + digits + tail;
    assert sp + sign + digits + tail == sp + rest;
    if sign != [] {
      assert rest[0] == sign[0];
    } else if digits != [] {
      assert rest[0] == digits[0];
    } else {
      assert rest == tail;
    }
    SkipSpaceAppend(sp, rest);
    SignedDigitsReadsNumber(sign, digits, tail);
  }

  lemma SignedDigitsReadsNumber(sign: seq<Byte>, digits: seq<Byte>, tail: seq<Byte>)
    requires IsSignField(sign) && AllDigits(digits)
    requires EndsNumber(sign, digits, tail)
    ensures SignedDigits(sign + digits + tail) == SignedValue(sign, digits)
  {
    var t := sign + digits + tail;
    var u := digits + tail;
    if sign != [] {
      assert t == [sign[0]] + u;
      assert t[0] == sign[0] && t[1..] == u;
    } else if digits != [] {
      assert t == u;
      assert t[0] == digits[0];
    } else {
      assert t == u;
    }
    DigitRunAppend(digits, tail);
    assert u[..|digits|] == digits;
  }

  /** The count decode reads the same number: the NUL cut of the buffer only
      shortens the tail, and the cast reduces the signed value modulo 2^16. */
  lemma {:induction false} ReadsNumber(sp: seq<Byte>, sign: seq<Byte>, digits: seq<Byte>, tail: seq<Byte>)
    requires AllSpaces(sp) && IsSignField(sign) && AllDigits(digits)
    requires EndsNumber(sign, digits, tail)
    ensures DecodeCount(sp + sign + digits + tail) == ToUShort(SignedValue(sign, digits))
  {
    var p := sp + sign + digits;
    assert NUL !in p by {
      forall i | 0 <= i < |p| ensures p[i] != NUL {
        if i < |sp| {
          assert p[i] == sp[i];
        } else if i < |sp| + |sign| {
          assert p[i] == sign[i - |sp|];
        } else {
          assert p[i] == digits[i - |sp| - |sign|];
        }
      }
    }
    CStringAppend(p, tail);
    var ct := CString(tail);
    assert ct != [] ==> ct[0] == tail[0];
    StrToLReadsNumber(sp, sign, digits, ct);
  }

  /** A window of blanks carries no digits and decodes to 0. */
  lemma BlankDecodesToZero(w: seq<Byte>)
    requires AllSpaces(w)
    ensures DecodeCount(w) == 0
  {
    ReadsNumber(w, [], [], []);
    assert SignedValue([], []) == 0;
    assert w + [] + [] + [] == w;
  }

  /** A window of three digits decodes to its decimal value, at most 999. */
  lemma DigitWindowDecodes(w: seq<Byte>)
    requires |w| == 3 && AllDigits(w)
    ensures DecodeCount(w) == DigitsValue(w) <= 999
  {
    DigitsValueBound(w);
    ReadsNumber([], [], w, []);
    assert [] + [] + w + [] == w;
  }

  /** Decoding stops at the first non-digit: `" 5X"` decodes to 5. */
  lemma StopsAtFirstNonDigit()
    ensures DecodeCount([SPACE, ZERO + 5, 88]) == 5
  {
    ReadsNumber([SPACE], [], [ZERO + 5], [88]);
    assert [SPACE] + [] + [ZERO + 5] + [88] == [SPACE, ZERO + 5, 88];
    DigitsValueSingle(ZERO + 5);
  }

  /** A negative count wraps around modulo 2^16 in the cast: `"-5"` gives 65531. */
  lemma NegativeCountWraps()
    ensures DecodeCount([MINUS, ZERO + 5, SPACE]) == 65531
  {
    ReadsNumber([], [MINUS], [ZERO + 5], [SPACE]);
    assert [] + [MINUS] + [ZERO + 5] + [SPACE] == [MINUS, ZERO + 5, SPACE];
    DigitsValueSingle(ZERO + 5);
  }

  /** Decoding inverts the 3-digit encoding: every count below 1000 survives
      the trip through its field. */
  lemma DecodeEncodeCount(n: nat)
    requires n < 1000
    ensures DecodeCount(EncodeCount(n)) == n
  {
    var w := EncodeCount(n);
    DigitWindowDecodes(w);
    EncodedDigitsValue(n);
  }

  lemma EncodedDigitsValue(n: nat)
    requires n < 1000
    ensures DigitsValue(EncodeCount(n)) == n
  {
    var w := EncodeCount(n);
    var a, b, c := n / 100, n / 10 % 10, n % 10;
    assert n / 10 == 10 * a + b;
    assert n == 10 * (n / 10) + c;
    assert w[..2][..1] == w[..1] && w[..1][..0] == [];
    assert DigitsValue(w[..1]) == a;
    assert DigitsValue(w[..2]) == 10 * a + b;
  }

  // ---------------------------------------------------------------------------
  // Lemmas about fixed-width concatenation

  /** In a concatenation of lines that all have width `k`, line `i` occupies
      bytes `k * i` up to `k * i + k`. */
  lemma {:induction false} ConcatSlice(ws: seq<seq<Byte>>, k: nat, i: nat, off: nat)
    requires forall j :: 0 <= j < |ws| ==> |ws[j]| == k
    requires i < |ws| && off == k * i
    ensures off + k <= |Concat(ws)| && Concat(ws)[off .. off + k] == ws[i]
  {
    var rest := Concat(ws[1..]);
    assert Concat(ws) == ws[0] + rest;
    if i == 0 {
      assert off == 0;
      assert |ws[0]| == k;
    } else {
      MulPred(k, i);
      ConcatSlice(ws[1..], k, i - 1, off - k);
      assert ws[1..][i - 1] == ws[i];
      assert |ws[0]| == k;
      SliceAfterPrefix(ws[0], rest, off - k, off);
    }
  }

  /** A prefix one element longer; stated for any element type, so that
      proving it never looks inside the elements. */
  lemma PrefixExtend<T>(s: seq<T>, i: nat)
    requires i < |s|
    ensures s[..i + 1] == s[..i] + [s[i]]
  {
  }

  lemma DropLast<T>(s: seq<T>)
    requires s != []
    ensures s[..|s| - 1] + [s[|s| - 1]] == s
  {
  }

  lemma DropLastOfAppend<T>(xs: seq<T>, ys: seq<T>)
    requires ys != []
    ensures (xs + ys)[..|xs + ys| - 1] == xs + ys[..|ys| - 1]
  {
  }

  lemma PrefixOfPrefix<T>(s: seq<T>, i: nat, k: nat)
    requires i <= k <= |s|
    ensures s[..k][..i] == s[..i]
  {
  }

  lemma PrefixWhole<T>(s: seq<T>)
    ensures s[..|s|] == s
  {
  }

  lemma MulPred(k: nat, i: nat)
    requires i > 0
    ensures k * i == k + k * (i - 1)
  {
  }

  lemma SliceAfterPrefix(a: seq<Byte>, b: seq<Byte>, lo: nat, hi: nat)
    requires lo <= hi <= |b|
    ensures (a + b)[|a| + lo .. |a| + hi] == b[lo .. hi]
  {
  }

  /** Line `i` of joined equal-width lines, framed by `a` in front and `c`
      behind, sits at `|a| + k * i`. */
  lemma WindowOfFramed(a: seq<Byte>, ws: seq<seq<Byte>>, c: seq<Byte>, k: nat, i: nat)
    requires forall j :: 0 <= j < |ws| ==> |ws[j]| == k
    requires i < |ws|
    ensures |a| + k * i + k <= |a + Concat(ws) + c|
    ensures (a + Concat(ws) + c)[|a| + k * i .. |a| + k * i + k] == ws[i]
  {
    var body := Concat(ws);
    var off := k * i;
    ConcatSlice(ws, k, i, off);
    assert a + body + c == a + (body + c);
    assert (body + c)[off .. off + k] == body[off .. off + k];
    SliceAfterPrefix(a, body + c, off, off + k);
  }

  lemma {:induction false} ConcatLength(ws: seq<seq<Byte>>, k: nat)
    requires forall j :: 0 <= j < |ws| ==> |ws[j]| == k
    ensures |Concat(ws)| == k * |ws|
  {
    if ws != [] {
      ConcatLength(ws[1..], k);
    }
  }
}
