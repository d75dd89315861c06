/**
 The two pieces of the Java standard library whose behaviour decides what the
 upload tool does with its input text: `String.split` with a one-character
 separator and a limit of zero, and `Integer.parseInt`.
 */
module JavaText {
  import opened Wrappers

  /** Position of the first occurrence of `c` in `s`. */
  function IndexOf(s: string, c: char): (i: nat)
    requires c in s
    ensures i < |s| && s[i] == c
    ensures c !in s[..i]
  {
    if s[0] == c then 0
    else
      var j := IndexOf(s[1..], c);
      assert s[..j + 1] == [s[0]] + s[1..][..j];
      j + 1
  }

  /** A position holding `c` with no `c` before it is the first occurrence. */
  lemma IndexOfUnique(s: string, c: char, j: nat)
    requires j < |s| && s[j] == c && c !in s[..j]
    ensures IndexOf(s, c) == j
  {
  }

  /**
   The pieces of `s` between occurrences of `sep`, empty pieces included:
   one more piece than there are separators.
   */
  function SplitAll(s: string, sep: char): (pieces: seq<string>)
    ensures |pieces| >= 1
    ensures forall k :: 0 <= k < |pieces| ==> sep !in pieces[k]
    ensures pieces[0] <= s && (|pieces[0]| == |s| || s[|pieces[0]|] == sep)
    ensures sep !in s <==> |pieces| == 1
    decreases |s|
  {
    if sep !in s then [s]
    else
      var i := IndexOf(s, sep);
      [s[..i]] + SplitAll(s[i + 1..], sep)
  }

  /** The pieces glued back together with `sep` between neighbours. */
  function Join(pieces: seq<string>, sep: char): string
    requires |pieces| >= 1
  {
    if |pieces| == 1 then pieces[0]
    else pieces[0] + [sep] + Join(pieces[1..], sep)
  }

  lemma SplitAllStep(s: string, sep: char)
    requires sep in s
    ensures SplitAll(s, sep) == [s[..IndexOf(s, sep)]] + SplitAll(s[IndexOf(s, sep) + 1..], sep)
  {
  }

  lemma JoinCons(head: string, tail: seq<string>, sep: char)
    requires |tail| >= 1
    ensures Join([head] + tail, sep) == head + [sep] + Join(tail, sep)
  {
    assert ([head] + tail)[1..] == tail;
  }

  lemma {:induction false} SplitAllJoin(pieces: seq<string>, sep: char)
    requires |pieces| >= 1
    requires forall k :: 0 <= k < |pieces| ==> sep !in pieces[k]
    ensures SplitAll(Join(pieces, sep), sep) == pieces
  {
    if |pieces| > 1 {
      var head := pieces[0];
      var tail := pieces[1..];
      var rest := Join(tail, sep);
      assert pieces == [head] + tail;
      JoinCons(head, tail, sep);
      var s := head + [sep] + rest;
      assert s[..|head|] == head;
      IndexOfUnique(s, sep, |head|);
      assert s[|head| + 1..] == rest;
      SplitAllStep(s, sep);
      SplitAllJoin(tail, sep);
    }
  }

  /** Java drops the empty pieces at the end of a split when the limit is zero. */
  function StripTrailingEmpty(pieces: seq<string>): (kept: seq<string>)
    ensures |kept| <= |pieces| && kept == pieces[..|kept|]
    ensures |kept| > 0 ==> kept[|kept| - 1] != ""
    ensures forall k :: |kept| <= k < |pieces| ==> pieces[k] == ""
  {
    if |pieces| == 0 || pieces[|pieces| - 1] != "" then pieces
    else StripTrailingEmpty(pieces[..|pieces| - 1])
  }

  /**
   Java's `s.split(sep)` for a separator that is one ordinary character: a
   string without the separator comes back whole (even when it is empty);
   otherwise every piece is kept except the empty ones at the end.
   */
  function JavaSplit(s: string, sep: char): (parts: seq<string>)
    ensures forall k :: 0 <= k < |parts| ==> sep !in parts[k]
    ensures |parts| <= |SplitAll(s, sep)|
  {
    if sep !in s then [s] else StripTrailingEmpty(SplitAll(s, sep))
  }

  /** Splitting a join gives the fields back, as long as the last one is not dropped as empty. */
  lemma JavaSplitJoin(fields: seq<string>, sep: char)
    requires |fields| >= 1
    requires forall k :: 0 <= k < |fields| ==> sep !in fields[k]
    requires |fields| == 1 || fields[|fields| - 1] != ""
    ensures JavaSplit(Join(fields, sep), sep) == fields
  {
    SplitAllJoin(fields, sep);
  }

  /** `s.split(sep)[k]`: `None` is the `ArrayIndexOutOfBoundsException`. */
  function Field(s: string, sep: char, k: nat): (r: Option<string>)
    ensures r.Some? ==> sep !in r.value
  {
    var parts := JavaSplit(s, sep);
    if k < |parts| then Some(parts[k]) else None
  }

  /** `s` holds some character other than `sep`. */
  predicate HasOther(s: string, sep: char) {
    exists j :: 0 <= j < |s| && s[j] != sep
  }

  /** Some piece is non-empty. */
  predicate SomeNonEmpty(pieces: seq<string>) {
    exists k :: 0 <= k < |pieces| && pieces[k] != ""
  }

  lemma SomeNonEmptyCons(head: string, tail: seq<string>)
    ensures SomeNonEmpty([head] + tail) <==> head != "" || SomeNonEmpty(tail)
  {
    var ps := [head] + tail;
    if head != "" {
      assert ps[0] != "";
    }
    if SomeNonEmpty(ps) {
      var k :| 0 <= k < |ps| && ps[k] != "";
      if k > 0 {
        assert tail[k - 1] != "";
      }
    }
    if SomeNonEmpty(tail) {
      var k :| 0 <= k < |tail| && tail[k] != "";
      assert ps[k + 1] != "";
    }
  }

  lemma HasOtherAround(s: string, sep: char, i: nat)
    requires i < |s| && s[i] == sep
    ensures HasOther(s, sep) <==> HasOther(s[..i], sep) || HasOther(s[i + 1..], sep)
  {
    if HasOther(s, sep) {
      var j :| 0 <= j < |s| && s[j] != sep;
      if j < i {
        assert s[..i][j] != sep;
      } else {
        assert s[i + 1..][j - i - 1] != sep;
      }
    }
    if HasOther(s[..i], sep) {
      var j :| 0 <= j < i && s[..i][j] != sep;
      assert s[j] != sep;
    }
    if HasOther(s[i + 1..], sep) {
      var j :| 0 <= j < |s| - i - 1 && s[i + 1..][j] != sep;
      assert s[i + 1 + j] != sep;
    }
  }

  /** All pieces are empty exactly when the string is nothing but separators. */
  lemma {:induction false} SomePieceNonEmpty(s: string, sep: char)
    ensures SomeNonEmpty(SplitAll(s, sep)) <==> HasOther(s, sep)
    decreases |s|
  {
    var pieces := SplitAll(s, sep);
    if sep !in s {
      if |s| > 0 {
        assert s[0] != sep;
        assert pieces[0] != "";
      }
    } else {
      var i := IndexOf(s, sep);
      var rest := s[i + 1..];
      assert pieces == [s[..i]] + SplitAll(rest, sep);
      SomeNonEmptyCons(s[..i], SplitAll(rest, sep));
      SomePieceNonEmpty(rest, sep);
      HasOtherAround(s, sep, i);
      if |s[..i]| > 0 {
        assert s[..i][0] != sep;
      }
    }
  }

  /**
   `s.split(sep)[1]` exists exactly when some character other than `sep`
   follows the first `sep`, and it is then the text between the first and the
   second `sep` (or the end of `s`).
   */
  lemma SecondField(s: string, sep: char)
    requires sep in s
    ensures Field(s, sep, 1).Some? <==> HasOther(AfterFirst(s, sep), sep)
    ensures Field(s, sep, 1).Some? ==> Field(s, sep, 1).value == UntilSep(AfterFirst(s, sep), sep)
  {
    var i := IndexOf(s, sep);
    var rest := AfterFirst(s, sep);
    var tail := SplitAll(rest, sep);
    var pieces := SplitAll(s, sep);
    assert pieces == [s[..i]] + tail;
    var kept := StripTrailingEmpty(pieces);
    assert Field(s, sep, 1) == if 1 < |kept| then Some(kept[1]) else None;
    StripKeepsIndex(pieces, 1);
    SomePieceNonEmpty(rest, sep);
    NonEmptyAfterHead(s[..i], tail);
    if 1 < |kept| {
      assert kept[1] == tail[0];
      assert Field(s, sep, 1).value == tail[0];
      UpToFirstUnique(tail[0], UntilSep(rest, sep), rest, sep);
    }
  }

  /** What follows the first `sep` in `s`. */
  function AfterFirst(s: string, sep: char): string
    requires sep in s
  {
    s[IndexOf(s, sep) + 1..]
  }

  /** `v` is the longest prefix of `s` free of `sep`. */
  predicate UpToFirst(v: string, s: string, sep: char) {
    v <= s && sep !in v && (|v| == |s| || s[|v|] == sep)
  }

  lemma UpToFirstUnique(v: string, w: string, s: string, sep: char)
    requires UpToFirst(v, s, sep) && UpToFirst(w, s, sep)
    ensures v == w
  {
  }

  /** The text of `s` before its first `sep`, or all of `s` when there is none. */
  function UntilSep(s: string, sep: char): (v: string)
    ensures UpToFirst(v, s, sep)
  {
    if |s| == 0 || s[0] == sep then ""
    else [s[0]] + UntilSep(s[1..], sep)
  }

  lemma NonEmptyAfterHead(head: string, tail: seq<string>)
    ensures (exists j :: 1 <= j < |[head] + tail| && ([head] + tail)[j] != "") <==> SomeNonEmpty(tail)
  {
    var ps := [head] + tail;
    if exists j :: 1 <= j < |ps| && ps[j] != "" {
      var j :| 1 <= j < |ps| && ps[j] != "";
      assert tail[j - 1] != "";
    }
    if SomeNonEmpty(tail) {
      var k :| 0 <= k < |tail| && tail[k] != "";
      assert ps[k + 1] != "";
    }
  }

  /** Index `k` survives the trimming exactly when some piece from `k` on is non-empty. */
  lemma StripKeepsIndex(pieces: seq<string>, k: nat)
    ensures k < |StripTrailingEmpty(pieces)| <==> exists j :: k <= j < |pieces| && pieces[j] != ""
  {
    var kept := StripTrailingEmpty(pieces);
    if k < |kept| {
      assert pieces[|kept| - 1] != "";
    }
  }

  // Integer.parseInt

  /** The range of a Java `int`. */
  const IntMin: int := -0x8000_0000
  const IntMax: int := 0x7FFF_FFFF

  predicate IsDigit(c: char) {
    '0' <= c <= '9'
  }

  predicate AllDigits(s: string) {
    forall k :: 0 <= k < |s| ==> IsDigit(s[k])
  }

  function DigitValue(c: char): nat
    requires IsDigit(c)
  {
    assert '0' as int <= c as int;
    c as int - '0' as int
  }

  function DigitChar(d: nat): (c: char)
    requires d < 10
    ensures IsDigit(c) && DigitValue(c) == d
  {
    ('0' as int + d) as char
  }

  /** The number a string of decimal digits denotes (leading zeros allowed). */
  function DigitsValue(ds: string): nat
    requires AllDigits(ds)
    decreases |ds|
  {
    if |ds| == 0 then 0
    else 10 * DigitsValue(ds[..|ds| - 1]) + DigitValue(ds[|ds| - 1])
  }

  /**
   `Integer.parseInt(s)`: an optional `+` or `-` followed by at least one
   decimal digit, denoting a value that fits in an `int`; anything else is a
   `NumberFormatException`, here `None`.
   */
  function ParseInt(s: string): (r: Option<int>)
    ensures r.Some? ==> IntMin <= r.value <= IntMax
    ensures r.Some? ==> |s| >= 1 && (IsDigit(s[0]) || s[0] == '-' || s[0] == '+')
  {
    if |s| == 0 then None
    else
      var signed := s[0] == '-' || s[0] == '+';
      var digits := if signed then s[1..] else s;
      if |digits| == 0 || !AllDigits(digits) then None
      else
        var v: int := if s[0] == '-' then -(DigitsValue(digits) as int) else DigitsValue(digits);
        if IntMin <= v <= IntMax then Some(v) else None
  }

  /** The text after an optional leading sign. */
  function Unsigned(s: string): (u: string)
    ensures |u| <= |s| && u == s[|s| - |u|..]
  {
    if |s| > 0 && (s[0] == '-' || s[0] == '+') then s[1..] else s
  }

  /** Shortest decimal digits of `n`. */
  function NatToDecimal(n: nat): (ds: string)
    ensures |ds| >= 1 && AllDigits(ds)
    decreases n
  {
    if n < 10 then [DigitChar(n)]
    else NatToDecimal(n / 10) + [DigitChar(n % 10)]
  }

  /** `Integer.toString(n)`. */
  function IntToDecimal(n: int): string {
    if n < 0 then "-" + NatToDecimal(-n) else NatToDecimal(n)
  }

  lemma {:induction false} NatToDecimalValue(n: nat)
    ensures DigitsValue(NatToDecimal(n)) == n
    decreases n
  {
    if n >= 10 {
      var ds := NatToDecimal(n);
      assert ds[..|ds| - 1] == NatToDecimal(n / 10);
      NatToDecimalValue(n / 10);
    }
  }

  /** Every `int` survives printing and parsing back. */
  lemma ParseIntRoundTrip(n: int)
    requires IntMin <= n <= IntMax
    ensures ParseInt(IntToDecimal(n)) == Some(n)
  {
    var s := IntToDecimal(n);
    if n < 0 {
      NatToDecimalValue(-n);
      assert s[1..] == NatToDecimal(-n);
    } else {
      NatToDecimalValue(n);
      assert IsDigit(s[0]);
    }
  }

  /** The decimal text of a number never holds a field separator. */
  lemma IntToDecimalHasNo(n: int, c: char)
    requires !IsDigit(c) && c != '-'
    ensures c !in IntToDecimal(n)
  {
  }

  /** Drops leading zeros from a string of digits, keeping at least one digit. */
  function StripZeros(ds: string): string
    decreases |ds|
  {
    if |ds| > 1 && ds[0] == '0' then StripZeros(ds[1..]) else ds
  }

  /**
   The text `Integer.toString` would print for what `s` denotes: no `+`, no
   leading zeros, and no `-` in front of zero.
   */
  function Canonical(s: string): string {
    var m := StripZeros(Unsigned(s));
    if |s| > 0 && s[0] == '-' && m != "0" then "-" + m else m
  }

  lemma DigitCharOfValue(c: char)
    requires IsDigit(c)
    ensures DigitChar(DigitValue(c)) == c
  {
  }

  /** A leading zero does not change the value. */
  lemma {:induction false} LeadingZeroValue(ds: string)
    requires AllDigits(ds)
    ensures AllDigits("0" + ds) && DigitsValue("0" + ds) == DigitsValue(ds)
    decreases |ds|
  {
    var zs := "0" + ds;
    assert AllDigits(zs) by {
      forall k | 0 <= k < |zs| ensures IsDigit(zs[k]) {
        if k > 0 { assert zs[k] == ds[k - 1]; }
      }
    }
    if |ds| > 0 {
      var init := ds[..|ds| - 1];
      assert zs[..|zs| - 1] == "0" + init;
      LeadingZeroValue(init);
    }
  }

  /** Digits with no leading zero are a positive number unless they are "0". */
  lemma {:induction false} NoLeadingZeroPositive(ds: string)
    requires |ds| >= 1 && AllDigits(ds) && ds[0] != '0'
    ensures DigitsValue(ds) >= 1
    decreases |ds|
  {
    if |ds| > 1 {
      NoLeadingZeroPositive(ds[..|ds| - 1]);
    }
  }

  /** Digits with no leading zero are the shortest decimal text of their value. */
  lemma {:induction false} CanonicalDigits(ds: string)
    requires |ds| >= 1 && AllDigits(ds) && (ds[0] != '0' || |ds| == 1)
    ensures NatToDecimal(DigitsValue(ds)) == ds
    decreases |ds|
  {
    var n := DigitsValue(ds);
    var last := ds[|ds| - 1];
    DigitCharOfValue(last);
    if |ds| > 1 {
      var init := ds[..|ds| - 1];
      NoLeadingZeroPositive(init);
      CanonicalDigits(init);
      assert n / 10 == DigitsValue(init) && n % 10 == DigitValue(last);
      assert ds == init + [last];
    }
  }

  /** Stripping the leading zeros of digits gives the shortest text of their value. */
  lemma {:induction false} StripZerosDecimal(ds: string)
    requires |ds| >= 1 && AllDigits(ds)
    ensures NatToDecimal(DigitsValue(ds)) == StripZeros(ds)
    decreases |ds|
  {
    if |ds| > 1 && ds[0] == '0' {
      var rest := ds[1..];
      assert ds == "0" + rest;
      LeadingZeroValue(rest);
      StripZerosDecimal(rest);
    } else {
      CanonicalDigits(ds);
    }
  }

  /** The value `Integer.parseInt` returns is the signed value of the digits. */
  lemma ParseIntValue(s: string, v: int)
    requires ParseInt(s) == Some(v)
    ensures |Unsigned(s)| >= 1 && AllDigits(Unsigned(s))
    ensures v == if s[0] == '-' then -(DigitsValue(Unsigned(s)) as int) else DigitsValue(Unsigned(s))
  {
  }

  /**
   The inverse of the round trip: a text `Integer.parseInt` accepts is, once
   a `+` and leading zeros are dropped, the decimal text of the value it
   denotes, so it parses to the same value as that text.
   */
  lemma ParseIntCanonical(s: string, v: int)
    requires ParseInt(s) == Some(v)
    ensures |Unsigned(s)| >= 1 && AllDigits(Unsigned(s))
    ensures v < 0 ==> s[0] == '-'
    ensures Canonical(s) == IntToDecimal(v)
    ensures ParseInt(Canonical(s)) == Some(v)
  {
    var u := Unsigned(s);
    ParseIntValue(s, v);
    StripZerosDecimal(u);
    var m := StripZeros(u);
    assert m == NatToDecimal(DigitsValue(u));
    if s[0] == '-' && m != "0" {
      assert DigitsValue(u) != 0;
      assert Canonical(s) == "-" + m;
    } else if s[0] == '-' {
      assert DigitsValue(u) == DigitsValue("0") == 0;
      assert Canonical(s) == m;
    } else {
      assert Canonical(s) == m;
    }
    ParseIntRoundTrip(v);
  }

  /** `k` zero digits. */
  function Zeros(k: nat): (z: string)
    ensures |z| == k && AllDigits(z)
    ensures forall i :: 0 <= i < k ==> z[i] == '0'
  {
    seq(k, i => '0')
  }

  /** Any number of leading zeros leaves the value of digits unchanged. */
  lemma {:induction false} ZerosValue(k: nat, ds: string)
    requires AllDigits(ds)
    ensures AllDigits(Zeros(k) + ds) && DigitsValue(Zeros(k) + ds) == DigitsValue(ds)
    decreases k
  {
    if k > 0 {
      ZerosValue(k - 1, ds);
      assert Zeros(k) + ds == "0" + (Zeros(k - 1) + ds);
      LeadingZeroValue(Zeros(k - 1) + ds);
    } else {
      assert Zeros(k) + ds == ds;
    }
  }

  lemma UnsignedOfDigits(s: string)
    requires |s| >= 1 && AllDigits(s)
    ensures Unsigned(s) == s
  {
    assert IsDigit(s[0]);
  }

  lemma UnsignedOfSigned(c: char, u: string)
    requires c == '-' || c == '+'
    ensures Unsigned([c] + u) == u
  {
    assert ([c] + u)[1..] == u;
  }

  /** Digits after an optional sign, inside the `int` range, parse to their signed value. */
  lemma ParseIntOfDigits(s: string, w: int)
    requires |Unsigned(s)| >= 1 && AllDigits(Unsigned(s))
    requires w == if s[0] == '-' then -(DigitsValue(Unsigned(s)) as int) else DigitsValue(Unsigned(s))
    requires IntMin <= w <= IntMax
    ensures ParseInt(s) == Some(w)
  {
  }

  /**
   The converse of `ParseIntCanonical`: every `int`, written with any number
   of leading zeros and with a `+` (if not negative), a `-` (if not positive)
   or no sign (if not negative), is accepted with its value.
   */
  lemma ParseIntAcceptsPadded(sign: string, k: nat, n: int)
    requires IntMin <= n <= IntMax
    requires (sign == "" && n >= 0) || (sign == "+" && n >= 0) || (sign == "-" && n <= 0)
    ensures ParseInt(sign + Zeros(k) + NatToDecimal(if n < 0 then -n else n)) == Some(n)
  {
    var a: nat := if n < 0 then -n else n;
    var ds := NatToDecimal(a);
    var u := Zeros(k) + ds;
    ZerosValue(k, ds);
    NatToDecimalValue(a);
    assert DigitsValue(u) == a;
    var s := sign + u;
    assert s == sign + Zeros(k) + ds;
    assert AllDigits(u) && |u| >= 1;
    if sign == "" {
      assert s == u;
      UnsignedOfDigits(u);
    } else {
      assert s == [sign[0]] + u;
      UnsignedOfSigned(sign[0], u);
    }
    ParseIntOfDigits(s, n);
  }
}
