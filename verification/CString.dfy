/** The C library's copying loop and number printer, on buffers updated in place. */
module CString {

  type byte = b: int | 0 <= b < 256

  // ----- memmove

  /** `memmove` copies forward from byte `i`, whatever the overlap. */
  function ForwardCopy(s: seq<byte>, dst: nat, src: nat, len: nat, i: nat): (r: seq<byte>)
    requires dst + len <= |s| && src + len <= |s| && i <= len
    ensures |r| == |s|
    decreases len - i
  {
    if i == len then s else ForwardCopy(s[dst + i := s[src + i]], dst, src, len, i + 1)
  }

  /** What a copy is for: the old bytes of the source, at the destination. */
  function Moved(s: seq<byte>, dst: nat, src: nat, len: nat): seq<byte>
    requires dst + len <= |s| && src + len <= |s|
  {
    s[..dst] + s[src..src + len] + s[dst + len..]
  }

  lemma {:induction false} ForwardCopyFrom(s: seq<byte>, dst: nat, src: nat, len: nat, i: nat, was: seq<byte>)
    requires dst + len <= |s| && src + len <= |s| && i <= len && |was| == |s|
    requires dst <= src || src + len <= dst
    requires forall k :: dst <= k < dst + i ==> s[k] == was[src + (k - dst)]
    requires forall k :: 0 <= k < |s| && !(dst <= k < dst + i) ==> s[k] == was[k]
    ensures ForwardCopy(s, dst, src, len, i) == Moved(was, dst, src, len)
    decreases len - i
  {
    if i < len {
      var r := s[dst + i := s[src + i]];
      assert s[src + i] == was[src + i];
      ForwardCopyFrom(r, dst, src, len, i + 1, was);
    } else {
      assert s == Moved(was, dst, src, len);
    }
  }

  /** The forward loop moves every contents rightly exactly when it does not copy upwards into its
      own source. */
  lemma ForwardCopyExact(n: nat, dst: nat, src: nat, len: nat)
    requires dst + len <= n && src + len <= n
    ensures (forall s: seq<byte> :: |s| == n ==> ForwardCopy(s, dst, src, len, 0) == Moved(s, dst, src, len))
       <==> dst <= src || src + len <= dst
  {
    hide ForwardCopy, Moved;
    if dst <= src || src + len <= dst {
      forall s: seq<byte> | |s| == n
        ensures ForwardCopy(s, dst, src, len, 0) == Moved(s, dst, src, len)
      {
        ForwardCopyFrom(s, dst, src, len, 0, s);
      }
    } else {
      OverlapWrong(n, dst, src, len);
      var s := OneByte(n, src);
      assert |s| == n;
    }
  }

  /** A buffer with one byte that is not 0. */
  function OneByte(n: nat, at: nat): (s: seq<byte>)
    ensures |s| == n
  {
    seq(n, k => if k == at then 1 else 0)
  }

  lemma OverlapWrong(n: nat, dst: nat, src: nat, len: nat)
    requires src < dst < src + len && dst + len <= n
    ensures ForwardCopy(OneByte(n, src), dst, src, len, 0) != Moved(OneByte(n, src), dst, src, len)
  {
    hide ForwardCopy;
    var s := OneByte(n, src);
    var far := dst + (dst - src);
    OverlapRepeats(s, dst, src, len, 0, 1);
    assert Moved(s, dst, src, len)[far] == s[dst] == 0;
  }

  /** Copying upwards into the source repeats its first byte at the distance of the copy. */
  lemma {:induction false} OverlapRepeats(s: seq<byte>, dst: nat, src: nat, len: nat, i: nat, v: byte)
    requires src < dst < src + len && dst + len <= |s| && i <= len
    requires s[if i == 0 then src else if i <= dst - src then dst else dst + (dst - src)] == v
    ensures ForwardCopy(s, dst, src, len, i)[dst + (dst - src)] == v
    decreases len - i
  {
    if i < len {
      OverlapRepeats(s[dst + i := s[src + i]], dst, src, len, i + 1, v);
    }
  }

  lemma RemBack(i: nat, g: nat)
    requires i >= g > 0
    ensures (i - g) % g == i % g
  {
    var q, m := (i - g) / g, (i - g) % g;
    assert i == (q + 1) * g + m;
    RemUnique(i, g, q + 1, m);
  }

  lemma RemUnique(i: nat, g: nat, q: int, m: nat)
    requires g > 0 && m < g && i == q * g + m
    ensures i % g == m
  {
    EuclidUnique(g, q, m, i / g, i % g);
  }

  lemma EuclidUnique(g: nat, q: int, m: nat, p: int, r: nat)
    requires g > 0 && m < g && r < g && q * g + m == p * g + r
    ensures p == q && r == m
  {
    if p < q {
      MulOrder(g, p, q);
    } else if q < p {
      MulOrder(g, q, p);
    }
  }

  /** Copying upwards into the source fills the destination with repetitions of the bytes before it. */
  lemma {:induction false} ForwardCopyRepeats(s: seq<byte>, dst: nat, src: nat, len: nat, i: nat, was: seq<byte>, k: nat)
    requires src < dst < src + len && dst + len <= |s| == |was| && i <= len && k < |s|
    requires forall x :: dst <= x < dst + i ==> s[x] == was[src + (x - dst) % (dst - src)]
    requires forall j :: 0 <= j < |s| && !(dst <= j < dst + i) ==> s[j] == was[j]
    ensures ForwardCopy(s, dst, src, len, i)[k] ==
            if dst <= k < dst + len then was[src + (k - dst) % (dst - src)] else was[k]
    decreases len - i
  {
    var g := dst - src;
    if i < len {
      var r := s[dst + i := s[src + i]];
      if i < g {
        RemUnique(i, g, 0, i);
      } else {
        RemBack(i, g);
        assert s[dst + (i - g)] == was[src + (dst + (i - g) - dst) % g];
      }
      ForwardCopyRepeats(r, dst, src, len, i + 1, was, k);
    }
  }

  method MemMove(a: array<byte>, dst: nat, src: nat, len: nat)
    requires dst + len <= a.Length && src + len <= a.Length
    modifies a
    ensures a[..] == ForwardCopy(old(a[..]), dst, src, len, 0)
  {
    var i := 0;
    ghost var was := a[..];
    while i < len
      invariant i <= len
      invariant ForwardCopy(a[..], dst, src, len, i) == ForwardCopy(was, dst, src, len, 0)
    {
      ghost var now := a[..];
      a[dst + i] := a[src + i];
      assert a[..] == now[dst + i := now[src + i]];
      i := i + 1;
    }
  }

  // ----- strlen

  predicate Terminated(s: seq<byte>) {
    exists k :: 0 <= k < |s| && s[k] == 0
  }

  method StrLen(a: array<byte>) returns (n: nat)
    requires Terminated(a[..])
    ensures n < a.Length && a[n] == 0 && forall k :: 0 <= k < n ==> a[k] != 0
  {
    n := 0;
    assert exists k :: 0 <= k < a.Length && a[k] == 0 by {
      var k :| 0 <= k < |a[..]| && a[..][k] == 0;
      assert a[k] == 0;
    }
    while a[n] != 0
      invariant n < a.Length
      invariant forall k :: 0 <= k < n ==> a[k] != 0
      decreases a.Length - n
    {
      n := n + 1;
    }
  }

  /** The text a buffer holds: its bytes up to the first that is 0. */
  function TextOf(s: seq<byte>): seq<byte> {
    if s == [] || s[0] == 0 then [] else [s[0]] + TextOf(s[1..])
  }

  lemma {:induction false} TextAt(s: seq<byte>, n: nat)
    requires n < |s| && s[n] == 0 && forall k :: 0 <= k < n ==> s[k] != 0
    ensures TextOf(s) == s[..n]
  {
    if n > 0 {
      TextAt(s[1..], n - 1);
      assert s[..n] == [s[0]] + s[1..][..n - 1];
    }
  }

  // ----- digits

  function DigitChar(d: nat): byte
    requires d < 36
  {
    if d < 10 then d + 48 else d + 97 - 10
  }

  function DigitValue(c: byte): int {
    if c < 58 then c - 48 else c - 97 + 10
  }

  function Quot(v: nat, r: nat): (q: nat)
    requires r >= 2
    ensures if v < r then q == 0 else 1 <= q < v
  {
    QuotBounds(v, r);
    v / r
  }

  lemma QuotBounds(v: nat, r: nat)
    requires r >= 2
    ensures if v < r then v / r == 0 else 1 <= v / r < v
  {
    QuotRange(v / r, v % r, v, r);
  }

  lemma QuotRange(q: int, m: int, v: nat, r: nat)
    requires r >= 2 && 0 <= q && 0 <= m < r && v == q * r + m
    ensures if v < r then q == 0 else 1 <= q < v
  {
    if q >= 1 {
      assert q * r >= q * 2;
      assert q * r >= 1 * r;
    }
  }

  function Rem(v: nat, r: nat): (m: nat)
    requires r >= 2
    ensures m < r && (v < r ==> m == v)
  {
    v % r
  }

  lemma Euclid(v: nat, r: nat)
    requires r >= 2
    ensures Quot(v, r) * r + Rem(v, r) == v
  {
  }

  /** The digits of `v`, most significant first. */
  function Digits(v: nat, radix: nat): (ds: seq<byte>)
    requires 2 <= radix <= 36
    ensures |ds| > 0
  {
    if v < radix then [DigitChar(v)] else Digits(Quot(v, radix), radix) + [DigitChar(Rem(v, radix))]
  }

  function Parse(ds: seq<byte>, radix: nat): int {
    if ds == [] then 0 else Parse(ds[..|ds| - 1], radix) * radix + DigitValue(ds[|ds| - 1])
  }

  lemma ParseAppend(ds: seq<byte>, c: byte, radix: nat)
    ensures Parse(ds + [c], radix) == Parse(ds, radix) * radix + DigitValue(c)
  {
    assert (ds + [c])[..|ds|] == ds;
  }

  lemma ParseOne(c: byte, radix: nat)
    ensures Parse([c], radix) == DigitValue(c)
  {
    ParseAppend([], c, radix);
    assert [] + [c] == [c];
  }

  lemma CharValue(d: nat)
    requires d < 36
    ensures DigitValue(DigitChar(d)) == d && (DigitChar(d) == DigitChar(0) <==> d == 0)
    ensures DigitChar(d) >= 48
  {
  }

  /** Reading the digits back gives the number. */
  lemma {:induction false} DigitsRoundTrip(v: nat, radix: nat)
    requires 2 <= radix <= 36
    ensures Parse(Digits(v, radix), radix) == v
    decreases v
  {
    hide Parse, Quot, Rem, DigitChar, DigitValue;
    if v < radix {
      ParseOne(DigitChar(v), radix);
      CharValue(v);
    } else {
      DigitsRoundTrip(Quot(v, radix), radix);
      ParseAppend(Digits(Quot(v, radix), radix), DigitChar(Rem(v, radix)), radix);
      CharValue(Rem(v, radix));
      Euclid(v, radix);
    }
  }

  const DIGITS := "0123456789abcdefghijklmnopqrstuvwxyz"

  /** The digits are the decimal ones and then the small letters. */
  lemma DigitChars(d: nat)
    requires d < 36
    ensures DigitChar(d) == DIGITS[d] as byte && DigitValue(DIGITS[d] as byte) == d
  {
  }

  predicate IsDigit(c: byte, radix: nat) {
    0 <= DigitValue(c) < radix && DigitValue(c) < 36 && c == DigitChar(DigitValue(c))
  }

  /** Only 0 starts with the digit 0, and all digits are below the radix. */
  lemma {:induction false} NoLeadingZero(v: nat, radix: nat)
    requires 2 <= radix <= 36
    ensures Digits(v, radix)[0] == DigitChar(0) <==> v == 0
    ensures forall i :: 0 <= i < |Digits(v, radix)| ==> IsDigit(Digits(v, radix)[i], radix)
    decreases v
  {
    hide Quot, Rem, DigitChar, DigitValue;
    if v < radix {
      CharValue(v);
    } else {
      NoLeadingZero(Quot(v, radix), radix);
      CharValue(Rem(v, radix));
    }
  }

  function Pow(b: nat, n: nat): nat {
    if n == 0 then 1 else b * Pow(b, n - 1)
  }

  /** The number of digits, exactly. */
  lemma {:induction false} DigitCount(v: nat, radix: nat, n: nat)
    requires 2 <= radix <= 36 && n >= 1
    ensures |Digits(v, radix)| <= n <==> v < Pow(radix, n)
    decreases n
  {
    hide Quot, Rem;
    if n == 1 {
      assert Pow(radix, 1) == radix;
    } else if v < radix {
      PowPositive(radix, n - 1);
      MulAtLeast(radix, Pow(radix, n - 1));
    } else {
      DigitCount(Quot(v, radix), radix, n - 1);
      QuotBelow(v, radix, Pow(radix, n - 1));
    }
  }

  lemma MulAtLeast(a: nat, b: nat)
    requires b >= 1
    ensures a * b >= a
  {
  }

  lemma {:induction false} PowPositive(b: nat, n: nat)
    requires b >= 1
    ensures Pow(b, n) >= 1
  {
    if n > 0 {
      PowPositive(b, n - 1);
      MulAtLeast(b, Pow(b, n - 1));
    }
  }

  lemma MulOrder(r: nat, a: int, b: int)
    requires a < b
    ensures a * r + r <= b * r
  {
    assert b * r - a * r == (b - a) * r;
    assert (b - a) * r == (b - a - 1) * r + r;
  }

  lemma QuotBelow(v: nat, r: nat, p: nat)
    requires r >= 2
    ensures Quot(v, r) < p <==> v < r * p
  {
    hide Quot, Rem;
    Euclid(v, r);
    var q := Quot(v, r);
    if q < p {
      MulOrder(r, q, p);
    } else if p < q {
      MulOrder(r, p, q);
    }
  }

  /** A number above the radix, taken apart. */
  lemma Parts(u: nat, r: nat, d: nat)
    requires d < r && r >= 2 && u >= 1
    ensures Quot(u * r + d, r) == u && Rem(u * r + d, r) == d && u * r + d >= r
  {
    hide Quot, Rem;
    var q := Quot(u * r + d, r);
    Euclid(u * r + d, r);
    MulAtLeast(r, u);
    if q > u {
      MulOrder(r, u, q);
    } else if q < u {
      MulOrder(r, q, u);
    }
  }

  lemma DigitsAppend(u: nat, radix: nat, d: nat)
    requires 2 <= radix <= 36 && d < radix && u >= 1
    ensures Digits(u * radix + d, radix) == Digits(u, radix) + [DigitChar(d)]
  {
    hide Quot, Rem;
    Parts(u, radix, d);
  }

  /** The digits of a number are the only ones without a leading zero that read back as it. */
  lemma {:induction false} DigitsUnique(ds: seq<byte>, radix: nat)
    requires 2 <= radix <= 36 && |ds| > 0
    requires forall i :: 0 <= i < |ds| ==> IsDigit(ds[i], radix)
    requires |ds| > 1 ==> ds[0] != DigitChar(0)
    ensures Parse(ds, radix) >= 0 && ds == Digits(Parse(ds, radix), radix)
    decreases |ds|
  {
    hide Parse, DigitChar, DigitValue;
    var init, last := ds[..|ds| - 1], ds[|ds| - 1];
    assert ds == init + [last];
    if |ds| == 1 {
      ParseOne(last, radix);
      assert ds == [last];
    } else {
      DigitsUnique(init, radix);
      hide Digits;
      var u := Parse(init, radix);
      NoLeadingZero(u, radix);
      assert init[0] == ds[0];
      ParseAppend(init, last, radix);
      DigitsAppend(u, radix, DigitValue(last));
    }
  }

  // ----- the number printer

  function Reversed(s: seq<byte>): seq<byte> {
    if s == [] then [] else Reversed(s[1..]) + [s[0]]
  }

  lemma {:induction false} ReversedAt(s: seq<byte>, k: nat)
    requires k < |s|
    ensures |Reversed(s)| == |s| && Reversed(s)[k] == s[|s| - 1 - k]
  {
    if |s| > 1 {
      ReversedAt(s[1..], if k < |s| - 1 then k else 0);
    }
  }

  /** The digits in the order the division loop finds them. */
  function LowFirst(v: nat, radix: nat): (ds: seq<byte>)
    requires 2 <= radix <= 36
    ensures |ds| > 0
  {
    if v < radix then [DigitChar(v)] else [DigitChar(Rem(v, radix))] + LowFirst(Quot(v, radix), radix)
  }

  lemma {:induction false} LowFirstReversed(v: nat, radix: nat)
    requires 2 <= radix <= 36
    ensures Reversed(LowFirst(v, radix)) == Digits(v, radix) && |LowFirst(v, radix)| == |Digits(v, radix)|
    decreases v
  {
    hide Quot, Rem, Reversed, DigitChar;
    if v < radix {
      ReversedOne(DigitChar(v));
    } else {
      LowFirstReversed(Quot(v, radix), radix);
      ReversedCons(DigitChar(Rem(v, radix)), LowFirst(Quot(v, radix), radix));
    }
  }

  lemma ReversedCons(c: byte, s: seq<byte>)
    ensures Reversed([c] + s) == Reversed(s) + [c]
  {
    assert ([c] + s)[1..] == s;
  }

  lemma ReversedOne(c: byte)
    ensures Reversed([c]) == [c]
  {
  }

  /** One round of the division loop. */
  lemma LowFirstStep(x: nat, radix: nat)
    requires 2 <= radix <= 36
    ensures LowFirst(x, radix)
         == [DigitChar(Rem(x, radix))] + if Quot(x, radix) == 0 then [] else LowFirst(Quot(x, radix), radix)
  {
    hide Quot, Rem, DigitChar;
  }

  /** `0x` before hexadecimal digits, nothing before others. */
  function Prefix(radix: nat): seq<byte> {
    if radix == 16 then [48, 120] else []
  }

  /** Reverses the bytes [lo, hi) where they are. */
  method ReverseRange(a: array<byte>, lo: nat, hi: nat)
    requires lo < hi <= a.Length
    modifies a
    ensures a[..lo] == old(a[..lo]) && a[hi..] == old(a[hi..])
    ensures a[lo..hi] == Reversed(old(a[lo..hi]))
  {
    hide Reversed;
    ghost var was := a[..];
    var s, e := lo, hi - 1;
    while s < e
      invariant lo <= s <= hi && lo - 1 <= e < hi && s + e == lo + hi - 1
      invariant forall k :: lo <= k < s || e < k < hi ==> a[k] == was[lo + hi - 1 - k]
      invariant forall k :: 0 <= k < a.Length && !(lo <= k < s) && !(e < k < hi) ==> a[k] == was[k]
    {
      var t := a[s];
      a[s] := a[e];
      a[e] := t;
      s := s + 1;
      e := e - 1;
    }
    var mid := was[lo..hi];
    forall k | lo <= k < hi
      ensures |Reversed(mid)| == |mid| && a[k] == Reversed(mid)[k - lo]
    {
      ReversedAt(mid, k - lo);
    }
    assert |Reversed(mid)| == |mid| by { ReversedAt(mid, 0); }
    assert a[lo..hi] == Reversed(mid);
  }

  lemma Shift(done: seq<byte>, d: byte, next: seq<byte>)
    ensures done + ([d] + next) == (done + [d]) + next
  {
  }

  /** The division loop: the digits of `val`, least significant first, from position `start` on. */
  method PutDigits(val: nat, buf: array<byte>, radix: nat, start: nat) returns (i: nat)
    requires 2 <= radix <= 36 && start + |LowFirst(val, radix)| < buf.Length
    modifies buf
    ensures i == start + |LowFirst(val, radix)|
    ensures buf[start..i] == LowFirst(val, radix)
    ensures buf[..start] == old(buf[..start]) && buf[i..] == old(buf[i..])
  {
    ghost var was := buf[..];
    ghost var all := LowFirst(val, radix);
    hide LowFirst, DigitChar, Quot, Rem;
    i := start;
    var x: nat := val;
    ghost var done, rest := [], all;
    while true
      invariant start <= i && i + |rest| == start + |all| && rest == LowFirst(x, radix)
      invariant buf[start..i] == done && done + rest == all
      invariant buf[..start] == was[..start] && buf[start + |all|..] == was[start + |all|..]
      decreases x
    {
      LowFirstStep(x, radix);
      var a := Rem(x, radix);
      DigitCase(a);
      if a < 10 {
        buf[i] := a + 48;
      } else {
        buf[i] := a + 97 - 10;
      }
      i := i + 1;
      assert buf[start..i] == done + [DigitChar(a)];
      x := Quot(x, radix);
      Shift(done, DigitChar(a), if x == 0 then [] else LowFirst(x, radix));
      done := done + [DigitChar(a)];
      if x == 0 {
        assert done + [] == done;
        break;
      }
      rest := LowFirst(x, radix);
    }
  }

  lemma DigitCase(d: nat)
    requires d < 36
    ensures DigitChar(d) == if d < 10 then d + 48 else d + 97 - 10
  {
  }

  /** Writes the prefix, the digits of `val` and a closing 0 into the buffer. */
  method Uitoa(val: nat, buf: array<byte>, radix: nat) returns (n: nat)
    requires 2 <= radix <= 36 && |Prefix(radix)| + |Digits(val, radix)| < buf.Length
    modifies buf
    ensures n == |Prefix(radix)| + |Digits(val, radix)|
    ensures buf[..n] == Prefix(radix) + Digits(val, radix) && buf[n] == 0
    ensures TextOf(buf[..]) == Prefix(radix) + Digits(val, radix)
    ensures if radix == 16 then n > 2 && buf[0] == '0' as byte && buf[1] == 'x' as byte && Parse(buf[2..n], 16) == val
            else Parse(buf[..n], radix) == val
    ensures buf[n + 1..] == old(buf[n + 1..])
  {
    hide Digits;
    ghost var was := buf[..];
    var i := 0;
    var start := i;
    if radix == 16 {
      buf[i] := 48;
      i := i + 1;
      buf[i] := 120;
      i := i + 1;
      start := i;
    }
    assert buf[..start] == Prefix(radix) && buf[start..] == was[start..];
    n := PrintDigits(val, buf, radix, start);
    assert buf[n + 1..] == was[n + 1..];
    DigitsPrintable(val, radix);
    DigitsRoundTrip(val, radix);
    assert buf[start..n] == Digits(val, radix);
    assert radix == 16 ==> buf[..n][0] == buf[0] && buf[..n][1] == buf[1];
    assert buf[..][..n] == Prefix(radix) + Digits(val, radix);
    TextAt(buf[..], n);
  }

  /** The digits of `val` in their order from position `start` on, and a closing 0. */
  method PrintDigits(val: nat, buf: array<byte>, radix: nat, start: nat) returns (i: nat)
    requires 2 <= radix <= 36 && start + |Digits(val, radix)| < buf.Length
    modifies buf
    ensures i == start + |Digits(val, radix)|
    ensures buf[..i] == old(buf[..start]) + Digits(val, radix) && buf[i] == 0
    ensures buf[i + 1..] == old(buf[i + 1..])
  {
    LowFirstReversed(val, radix);
    hide LowFirst, Digits, Reversed;
    i := PutDigits(val, buf, radix, start);
    ReverseRange(buf, start, i);
    assert buf[..i] == buf[..start] + buf[start..i];
    ghost var now := buf[..];
    buf[i] := 0;
    assert buf[..i] == now[..i] && buf[i + 1..] == now[i..][1..];
  }

  lemma {:induction false} PowMonotone(a: nat, b: nat, n: nat)
    requires a <= b
    ensures Pow(a, n) <= Pow(b, n)
  {
    if n > 0 {
      PowMonotone(a, b, n - 1);
      MulMonotone(a, b, Pow(a, n - 1), Pow(b, n - 1));
    }
  }

  lemma MulMonotone(a: nat, b: nat, x: nat, y: nat)
    requires a <= b && x <= y
    ensures a * x <= b * y
  {
    assert a * x <= a * y;
    assert a * y <= b * y;
  }

  const WORD_LIMIT := 0x1_0000_0000

  /** `printf`'s buffer of 20 bytes holds every 32-bit value exactly in the radices from 4 on; it
      prints in 10 and 16 only. */
  lemma BufferSuffices(radix: nat)
    requires 2 <= radix <= 36
    ensures (forall v: nat :: v < WORD_LIMIT ==> |Prefix(radix)| + |Digits(v, radix)| + 1 <= 20) <==> radix >= 4
  {
    if radix >= 4 {
      assert Pow(4, 4) == 256 && Pow(4, 8) == 0x1_0000 && Pow(4, 16) == WORD_LIMIT;
      PowMonotone(4, radix, 16);
      forall v: nat | v < WORD_LIMIT
        ensures |Prefix(radix)| + |Digits(v, radix)| + 1 <= 20
      {
        DigitCount(v, radix, 16);
      }
    } else {
      assert Pow(3, 5) == 243 && Pow(3, 10) == 59049 && Pow(3, 15) == 14348907 && Pow(3, 19) == 1162261467;
      PowMonotone(radix, 3, 19);
      DigitCount(WORD_LIMIT - 1, radix, 19);
    }
  }

  lemma DecimalDigits(v: nat)
    requires v < WORD_LIMIT
    ensures |Digits(v, 10)| <= 10
  {
    assert Pow(10, 10) == 10000000000;
    DigitCount(v, 10, 10);
  }

  // ----- kprint_dec

  /** The 32 bits of `num` read as a signed number. */
  function Signed(num: nat): int {
    if num < WORD_LIMIT / 2 then num else num - WORD_LIMIT
  }

  /** What the loops of `kprint_dec` should produce. */
  function DecimalOf(num: nat): (ds: seq<byte>) {
    if num < WORD_LIMIT / 2 then Digits(num, 10) else []
  }

  /** The first loop: the digits of a positive number, least significant first. */
  method PutDecimal(num: int, c: array<byte>) returns (i: nat)
    requires num > 0 ==> |LowFirst(num, 10)| < c.Length
    modifies c
    ensures i <= c.Length
    ensures c[..i] == if num > 0 then LowFirst(num, 10) else []
  {
    hide LowFirst, DigitChar, Quot, Rem;
    var acc := num;
    i := 0;
    ghost var all := if num > 0 then LowFirst(num, 10) else [];
    ghost var done, rest := [], all;
    while acc > 0
      invariant i <= c.Length && i + |rest| == |all|
      invariant acc > 0 ==> rest == LowFirst(acc, 10)
      invariant acc <= 0 ==> rest == []
      invariant c[..i] == done && done + rest == all
      decreases acc
    {
      LowFirstStep(acc, 10);
      var a := Rem(acc, 10);
      DigitCase(a);
      c[i] := 48 + a;
      i := i + 1;
      assert c[..i] == done + [DigitChar(a)];
      acc := Quot(acc, 10);
      rest := if acc == 0 then [] else LowFirst(acc, 10);
      Shift(done, DigitChar(a), rest);
      done := done + [DigitChar(a)];
    }
    assert done + [] == done;
  }

  /** The second loop: the first `n` bytes of `c` backwards, then a closing 0. */
  method CopyBack(c: array<byte>, n: nat) returns (c2: array<byte>)
    requires n < c.Length
    ensures fresh(c2) && c2.Length == c.Length
    ensures c2[..n] == Reversed(c[..n]) && c2[n] == 0
  {
    hide Reversed;
    ghost var all := c[..n];
    c2 := new byte[c.Length](_ => 0);
    var i := n - 1;
    var j := 0;
    while i >= 0
      invariant -1 <= i < n && i + j == n - 1
      invariant forall k :: i < k < n ==> c2[k] == all[n - 1 - k]
      invariant c2[n] == 0
    {
      c2[i] := c[j];
      i := i - 1;
      j := j + 1;
    }
    ReversedLength(all);
    forall k | 0 <= k < n
      ensures c2[k] == Reversed(all)[k]
    {
      ReversedAt(all, k);
    }
    assert c2[..n] == Reversed(all);
  }

  lemma ReversedLength(s: seq<byte>)
    ensures |Reversed(s)| == |s|
  {
    if s != [] {
      ReversedAt(s, 0);
    }
  }

  /** The text `kprint_dec` prints for a number other than 0: it is the digits that `uitoa` writes
      exactly for numbers that fit a signed word, and nothing for larger ones. */
  method DecimalText(num: nat) returns (c2: array<byte>)
    requires 0 < num < WORD_LIMIT
    ensures fresh(c2) && Terminated(c2[..])
    ensures c2.Length == 32 && |DecimalOf(num)| < 32
    ensures c2[|DecimalOf(num)|] == 0 && TextOf(c2[..]) == DecimalOf(num)
    ensures TextOf(c2[..]) == Digits(num, 10) <==> num < WORD_LIMIT / 2
    ensures num >= WORD_LIMIT / 2 ==> TextOf(c2[..]) == []
  {
    DecimalDigits(num);
    LowFirstReversed(num, 10);
    hide LowFirst, Digits, Reversed;
    var acc := Signed(num);
    var c := new byte[32](_ => 0);
    var i := PutDecimal(acc, c);
    c[i] := 0;
    c2 := CopyBack(c, i);
    NoneReversed();
    DecimalNonZero(num);
    assert c2[..][|DecimalOf(num)|] == 0;
    assert c2[..][..|DecimalOf(num)|] == DecimalOf(num);
    TextAt(c2[..], |DecimalOf(num)|);
  }

  lemma NoneReversed()
    ensures Reversed([]) == []
  {
  }

  lemma DecimalNonZero(num: nat)
    ensures 0 !in DecimalOf(num)
  {
    if num < WORD_LIMIT / 2 {
      DigitsPrintable(num, 10);
    }
  }

  lemma {:induction false} DigitsPrintable(v: nat, radix: nat)
    requires 2 <= radix <= 36
    ensures forall i :: 0 <= i < |Digits(v, radix)| ==> Digits(v, radix)[i] >= 48
    decreases v
  {
    hide Quot, Rem, DigitChar;
    if v < radix {
      CharValue(v);
    } else {
      DigitsPrintable(Quot(v, radix), radix);
      CharValue(Rem(v, radix));
    }
  }
}
