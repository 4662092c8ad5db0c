/** IP networks (`IpPrefix` in src/util.rs). */
module IpPrefix {
  import opened Text
  import opened Powers

  datatype Addr = V4(n: nat) | V6(n: nat)

  function Width(a: Addr): nat {
    if a.V4? then 32 else 128
  }

  predicate ValidAddr(a: Addr) {
    a.n < Pow2(Width(a))
  }

  /** `addr` has its low bits cleared. */
  datatype Prefix = Prefix(addr: Addr, bits: nat)

  // ---------------------------------------------------------------- the operations

  /** An IPv4 address inside IPv6, `::ffff:a.b.c.d`, is taken as IPv4. */
  function Unmap(a: Addr): Addr {
    if a.V6? && a.n / Pow2(32) == 0xffff then V4(a.n % Pow2(32)) else a
  }

  /** Bitwise and. */
  function And(a: nat, b: nat): nat {
    if a == 0 || b == 0 then 0
    else 2 * And(a / 2, b / 2) + (if a % 2 == 1 && b % 2 == 1 then 1 else 0)
  }

  /** `MAX << shift` on integers of `width` bits: what is shifted out is lost. */
  function ShiftedMax(width: nat, shift: nat): nat {
    ((Pow2(width) - 1) * Pow2(shift)) % Pow2(width)
  }

  function Mask(a: Addr, bits: nat): Addr
    requires bits <= Width(a)
  {
    var m := if bits == 0 then 0 else ShiftedMax(Width(a), Width(a) - bits);
    if a.V4? then V4(And(a.n, m)) else V6(And(a.n, m))
  }

  /** `str::parse::<u8>`: digits after an optional plus sign, at most 255. */
  function ParseU8(s: string): Option<nat> {
    var digits := if s != "" && s[0] == '+' then s[1..] else s;
    if digits != "" && All(IsDigit, digits) && DecimalValue(digits) <= 255 then Some(DecimalValue(digits)) else None
  }

  /** `IpPrefix::parse`; `read` is the address parser. */
  function Parse(read: string -> Option<Addr>, value: string): Option<Prefix> {
    var slash := Find('/', value);
    if slash == |value| then
      match read(value)
      case None => None
      case Some(a) => Some(Prefix(Unmap(a), Width(Unmap(a))))
    else
      match (read(value[..slash]), ParseU8(value[slash + 1..]))
      case (Some(a), Some(bits)) => if bits <= Width(a) then Some(Prefix(Mask(a, bits), bits)) else None
      case _ => None
  }

  predicate Contains(p: Prefix, addr: Addr)
    requires p.bits <= Width(p.addr)
  {
    var a := Unmap(addr);
    a.V4? == p.addr.V4? && Mask(a, p.bits) == p.addr
  }

  // ---------------------------------------------------------------- powers, division, masks

  lemma {:induction false} AllOnes(x: nat, width: nat)
    requires x < Pow2(width)
    ensures And(x, Pow2(width) - 1) == x
  {
    if x > 0 {
      AllOnes(x / 2, width - 1);
    }
  }

  /** A mask of ones over `low` zeros clears the low bits. */
  lemma {:induction false} AndMask(x: nat, width: nat, low: nat)
    requires x < Pow2(width) && low <= width
    ensures Pow2(low) <= Pow2(width)
    ensures And(x, Pow2(width) - Pow2(low)) == x - x % Pow2(low)
  {
    if low == 0 {
      AllOnes(x, width);
    } else {
      AndMask(x / 2, width - 1, low - 1);
      var p := Pow2(low - 1);
      HalfRemainder(x, p);
      assert Pow2(width) - Pow2(low) == 2 * (Pow2(width - 1) - p);
    }
  }

  lemma HalfRemainder(x: nat, p: nat)
    requires p > 0
    ensures x % (2 * p) == 2 * ((x / 2) % p) + x % 2
  {
    var h := x / 2;
    var q, r := h / p, h % p;
    assert h == q * p + r;
    assert x == q * (2 * p) + (2 * r + x % 2);
    DivisionIs(x, 2 * p, q, 2 * r + x % 2);
  }

  lemma Wraps(w: nat, b: nat)
    requires 0 < b <= w
    ensures ((w - 1) * b) % w == (w - b) % w
  {
    assert (w - 1) * b == (b - 1) * w + (w - b);
    DivisionIs((w - 1) * b, w, b - 1, w - b);
  }

  lemma ShiftIs(width: nat, shift: nat)
    requires shift < width
    ensures Pow2(shift) <= Pow2(width) && ShiftedMax(width, shift) == Pow2(width) - Pow2(shift)
  {
    hide Pow2;
    Pow2Grows(shift, width);
    Wraps(Pow2(width), Pow2(shift));
    var rest := Pow2(width) - Pow2(shift);
    DivisionIs(rest, Pow2(width), 0, rest);
  }

  /** `x` rounded down to a multiple of `d`. */
  function Floor(x: nat, d: nat): (r: nat)
    requires d > 0
    ensures r <= x
  {
    x - x % d
  }

  /** Masking an address clears all but its first `bits` bits. */
  lemma MaskIs(a: Addr, bits: nat)
    requires ValidAddr(a) && bits <= Width(a)
    ensures var k := Pow2(Width(a) - bits);
            Mask(a, bits) == if a.V4? then V4(Floor(a.n, k)) else V6(Floor(a.n, k))
    ensures ValidAddr(Mask(a, bits))
  {
    hide And, Pow2, ShiftedMax;
    if bits == 0 {
      AndNothing(a.n);
      DivisionIs(a.n, Pow2(Width(a)), 0, a.n);
    } else {
      ShiftIs(Width(a), Width(a) - bits);
      AndMask(a.n, Width(a), Width(a) - bits);
    }
  }

  lemma AndNothing(x: nat)
    ensures And(x, 0) == 0
  {
  }

  lemma UnmapIsValid(a: Addr)
    requires ValidAddr(a)
    ensures ValidAddr(Unmap(a))
  {
    hide Pow2;
  }

  // ---------------------------------------------------------------- what a prefix contains

  ghost predicate ValidReader(read: string -> Option<Addr>) {
    forall s :: read(s).Some? ==> ValidAddr(read(s).value)
  }

  /** How many addresses share the prefix's bits. */
  function Size(p: Prefix): (n: nat)
    requires p.bits <= Width(p.addr)
    ensures n > 0
  {
    Pow2(Width(p.addr) - p.bits)
  }

  ghost predicate ValidPrefix(p: Prefix) {
    ValidAddr(p.addr) && p.bits <= Width(p.addr) && p.addr.n % Size(p) == 0
  }

  lemma RemainderGone(x: nat, d: nat)
    requires d > 0
    ensures (x - x % d) % d == 0
  {
    var q := x / d;
    assert x == q * d + x % d;
    DivisionIs(x - x % d, d, q, 0);
  }

  /** Every parsed prefix is aligned to its length. */
  lemma ParsedIsValid(read: string -> Option<Addr>, value: string)
    requires ValidReader(read) && Parse(read, value).Some?
    ensures ValidPrefix(Parse(read, value).value)
  {
    hide ParseU8, Pow2, Mask, Find, Unmap;
    var slash := Find('/', value);
    if slash == |value| {
      UnmapIsValid(read(value).value);
      PowZero();
    } else {
      var a, bits := read(value[..slash]).value, ParseU8(value[slash + 1..]).value;
      assert ValidAddr(a);
      MaskIs(a, bits);
      RemainderGone(a.n, Pow2(Width(a) - bits));
    }
  }

  lemma PowZero()
    ensures Pow2(0) == 1
  {
  }

  lemma SameBlock(x: nat, base: nat, d: nat)
    requires d > 0 && base % d == 0
    ensures x - x % d == base <==> base <= x < base + d
    ensures x - x % d == base <==> x / d == base / d
  {
    var q, b := x / d, base / d;
    assert x == q * d + x % d && base == b * d;
    if base <= x < base + d {
      DivisionIs(x, d, b, x - base);
    }
  }

  /** Section 3.1 of RFC 4632: a prefix contains exactly the addresses of its family from its base up
      to the next multiple of its size. */
  lemma ContainsExact(p: Prefix, addr: Addr)
    requires ValidPrefix(p) && ValidAddr(addr)
    ensures Contains(p, addr) <==>
              var a := Unmap(addr);
              a.V4? == p.addr.V4? && p.addr.n <= a.n < p.addr.n + Size(p)
  {
    hide Pow2, Mask, Unmap;
    UnmapIsValid(addr);
    var a := Unmap(addr);
    if a.V4? == p.addr.V4? {
      MaskIs(a, p.bits);
      SameBlock(a.n, p.addr.n, Size(p));
    }
  }

  lemma ParsedContains(read: string -> Option<Addr>, value: string, addr: Addr)
    requires ValidReader(read) && Parse(read, value).Some? && ValidAddr(addr)
    ensures var p, a := Parse(read, value).value, Unmap(addr);
            && p.bits <= Width(p.addr)
            && (Contains(p, addr) <==> a.V4? == p.addr.V4? && p.addr.n <= a.n < p.addr.n + Size(p))
  {
    ParsedIsValid(read, value);
    ContainsExact(Parse(read, value).value, addr);
  }

  // ---------------------------------------------------------------- nested or disjoint

  ghost predicate Within(p: Prefix, q: Prefix)
    requires ValidPrefix(p) && ValidPrefix(q)
  {
    forall a :: ValidAddr(a) && Contains(p, a) ==> Contains(q, a)
  }

  ghost predicate Disjoint(p: Prefix, q: Prefix)
    requires ValidPrefix(p) && ValidPrefix(q)
  {
    forall a :: ValidAddr(a) ==> !(Contains(p, a) && Contains(q, a))
  }

  lemma InBlock(p: Prefix, addr: Addr)
    requires ValidPrefix(p) && ValidAddr(addr)
    ensures Contains(p, addr) <==>
              var a := Unmap(addr);
              a.V4? == p.addr.V4? && a.n / Size(p) == p.addr.n / Size(p)
  {
    hide Pow2, Mask, Unmap, Contains;
    ContainsExact(p, addr);
    SameBlock(Unmap(addr).n, p.addr.n, Size(p));
  }

  lemma DivDiv(x: nat, a: nat, b: nat)
    requires a > 0 && b > 0
    ensures a * b > 0 && x / (a * b) == x / a / b
  {
    var y := x / a;
    var q, r := y / b, y % b;
    assert x == y * a + x % a && y == q * b + r;
    assert r * a + x % a < a * b by {
      Times(r, b - 1, a);
    }
    assert x == q * (a * b) + (r * a + x % a);
    DivisionIs(x, a * b, q, r * a + x % a);
  }

  /** If two prefixes share an address, the longer one lies within the shorter. */
  lemma SharedMeansWithin(p: Prefix, q: Prefix, shared: Addr)
    requires ValidPrefix(p) && ValidPrefix(q) && ValidAddr(shared)
    requires Contains(p, shared) && Contains(q, shared) && q.bits <= p.bits
    ensures Within(p, q)
  {
    hide Pow2, Unmap, Contains;
    InBlock(p, shared);
    InBlock(q, shared);
    var small, times := Size(p), Pow2(p.bits - q.bits);
    Pow2Add(Width(p.addr) - p.bits, p.bits - q.bits);
    forall a | ValidAddr(a) && Contains(p, a)
      ensures Contains(q, a)
    {
      InBlock(p, a);
      InBlock(q, a);
      DivDiv(Unmap(a).n, small, times);
      DivDiv(Unmap(shared).n, small, times);
    }
  }

  /** Any two prefixes accept nested or disjoint sets of addresses. */
  lemma NestedOrDisjoint(p: Prefix, q: Prefix)
    requires ValidPrefix(p) && ValidPrefix(q)
    ensures Within(p, q) || Within(q, p) || Disjoint(p, q)
  {
    hide Contains, Within;
    if !Disjoint(p, q) {
      var a :| ValidAddr(a) && Contains(p, a) && Contains(q, a);
      if q.bits <= p.bits {
        SharedMeansWithin(p, q, a);
      } else {
        SharedMeansWithin(q, p, a);
      }
    }
  }

  // ---------------------------------------------------------------- mapped prefixes

  /** A prefix written in the mapped range with a slash keeps its IPv6 form, while every address
      there is taken as IPv4: such a prefix, and only such a one, contains nothing. */
  lemma EmptyExactlyWhenMapped(p: Prefix)
    requires ValidPrefix(p)
    ensures (forall a :: ValidAddr(a) ==> !Contains(p, a)) <==> Unmap(p.addr) != p.addr
  {
    if Unmap(p.addr) == p.addr {
      ContainsExact(p, p.addr);
    } else {
      hide Contains;
      MappedIsLong(p);
      forall a | ValidAddr(a)
        ensures !Contains(p, a)
      {
        NotInMapped(p, a);
      }
    }
  }

  lemma MappedIsLong(p: Prefix)
    requires ValidPrefix(p) && Unmap(p.addr) != p.addr
    ensures p.addr.V6? && p.bits >= 96
  {
    if p.bits < 96 {
      hide Pow2;
      var k := 128 - p.bits;
      Pow2Add(33, k - 33);
      Pow2Of33();
      EvenBlock(p.addr.n, Pow2(k), Pow2(32), Pow2(k - 33));
      assert false;
    }
  }

  /** A multiple of an even multiple of `b` holds `b` an even number of times. */
  lemma EvenBlock(n: nat, d: nat, b: nat, a: nat)
    requires d > 0 && b > 0 && d == (2 * b) * a && n % d == 0
    ensures n / b % 2 == 0
  {
    var m := n / d;
    assert n == m * d;
    Regroup(m, a, b);
    DivisionIs(n, b, 2 * (m * a), 0);
  }

  lemma Regroup(m: nat, a: nat, b: nat)
    ensures m * ((2 * b) * a) == (2 * (m * a)) * b
  {
  }

  lemma Pow2Of33()
    ensures Pow2(33) == 2 * Pow2(32)
  {
  }

  lemma NotInMapped(p: Prefix, a: Addr)
    requires ValidPrefix(p) && ValidAddr(a) && p.addr.V6? && p.bits >= 96
    requires p.addr.n / Pow2(32) == 0xffff
    ensures !Contains(p, a)
  {
    hide Pow2, Contains;
    InBlock(p, a);
    Pow2Add(128 - p.bits, p.bits - 96);
    DivDiv(p.addr.n, Size(p), Pow2(p.bits - 96));
    DivDiv(Unmap(a).n, Size(p), Pow2(p.bits - 96));
    assert a.V6? && a.n / Pow2(32) == 0xffff ==> Unmap(a).V4?;
  }

  // ---------------------------------------------------------------- what is parsed

  lemma ReadsDecimal(n: nat)
    ensures ParseU8(Decimal(n)) == if n <= 255 then Some(n) else None
    ensures ParseU8("+" + Decimal(n)) == ParseU8(Decimal(n))
  {
    DecimalRoundTrip(n);
    assert IsDigit(Decimal(n)[0]);
    hide Decimal, DecimalValue;
    assert ("+" + Decimal(n))[1..] == Decimal(n);
  }

  lemma SplitsAtSlash(addr: string, bits: string)
    requires '/' !in addr
    ensures var value := addr + ("/" + bits);
            Find('/', value) == |addr| < |value| && value[..|addr|] == addr && value[|addr| + 1..] == bits
  {
    FindOfPrefix('/', addr, "/" + bits);
    assert ("/" + bits)[1..] == bits;
  }

  lemma SameAddress(a: Addr, b: Addr)
    ensures a == b <==> a.V4? == b.V4? && a.n == b.n
  {
  }

  /** A text without a slash is one address: the prefix contains exactly that address, unmapped. */
  lemma LoneAddress(read: string -> Option<Addr>, value: string, addr: Addr)
    requires ValidReader(read) && '/' !in value && ValidAddr(addr)
    ensures Parse(read, value).Some? <==> read(value).Some?
    ensures read(value).Some? ==>
              Parse(read, value).value.bits <= Width(Parse(read, value).value.addr)
              && (Contains(Parse(read, value).value, addr) <==> Unmap(addr) == Unmap(read(value).value))
  {
    FindOfPrefix('/', value, "");
    assert value + "" == value;
    hide Find, Pow2, Unmap, Mask, Contains;
    if read(value).Some? {
      var p := Parse(read, value).value;
      ParsedIsValid(read, value);
      ContainsExact(p, addr);
      PowZero();
      SameAddress(Unmap(addr), Unmap(read(value).value));
    }
  }

  /** An address and a length: refused exactly when the address cannot be read or the length is over
      its width; otherwise the prefix contains exactly the addresses of its family with the same
      leading bits. */
  lemma AddressAndLength(read: string -> Option<Addr>, text: string, bits: nat, addr: Addr)
    requires ValidReader(read) && '/' !in text && ValidAddr(addr)
    ensures var p := Parse(read, text + ("/" + Decimal(bits)));
            && (p.Some? <==> read(text).Some? && bits <= Width(read(text).value))
            && (p.Some? ==>
                  var a, k := read(text).value, Pow2(Width(read(text).value) - bits);
                  && p.value.bits == bits <= Width(p.value.addr)
                  && (Contains(p.value, addr) <==> Unmap(addr).V4? == a.V4? && Unmap(addr).n / k == a.n / k))
  {
    hide Parse, Pow2, Unmap, Contains, Decimal, Mask;
    ParseIs(read, text, bits);
    if read(text).Some? && bits <= Width(read(text).value) {
      MaskedContains(read(text).value, bits, addr);
    }
  }

  lemma ParseIs(read: string -> Option<Addr>, text: string, bits: nat)
    requires '/' !in text
    ensures Parse(read, text + ("/" + Decimal(bits))) ==
            if read(text).Some? && bits <= Width(read(text).value) then Some(Prefix(Mask(read(text).value, bits), bits))
            else None
  {
    SplitsAtSlash(text, Decimal(bits));
    ReadsDecimal(bits);
    hide Find, Mask, Decimal, ParseU8;
  }

  lemma MaskedContains(a: Addr, bits: nat, addr: Addr)
    requires ValidAddr(a) && bits <= Width(a) && ValidAddr(addr)
    ensures var p, k := Prefix(Mask(a, bits), bits), Pow2(Width(a) - bits);
            && bits <= Width(p.addr)
            && (Contains(p, addr) <==> Unmap(addr).V4? == a.V4? && Unmap(addr).n / k == a.n / k)
  {
    MaskIs(a, bits);
    hide Pow2, Unmap, Contains, Mask;
    var k := Pow2(Width(a) - bits);
    RemainderGone(a.n, k);
    InBlock(Prefix(Mask(a, bits), bits), addr);
    SameBlock(a.n, Floor(a.n, k), k);
  }

  /** A text that parses to such a prefix: any mapped address, as in `::ffff:10.0.0.1/96`. */
  lemma MappedText(read: string -> Option<Addr>, text: string, n: nat)
    requires ValidReader(read) && '/' !in text && read(text) == Some(V6(n)) && n / Pow2(32) == 0xffff
    ensures var p := Parse(read, text + ("/" + Decimal(96)));
            p.Some? && p.value.bits == 96 <= Width(p.value.addr) && forall a :: ValidAddr(a) ==> !Contains(p.value, a)
  {
    hide Parse, Pow2, Decimal, Contains;
    forall a | ValidAddr(a)
      ensures var p := Parse(read, text + ("/" + Decimal(96)));
              p.Some? && p.value.bits == 96 <= Width(p.value.addr) && !Contains(p.value, a)
    {
      AddressAndLength(read, text, 96, a);
    }
    AddressAndLength(read, text, 96, V6(n));
  }

  /** `::ffff:a.b.c.d` is taken as the address `a.b.c.d`, and every other address as it is. */
  lemma UnmapExact(a: Addr, n: nat)
    requires n < Pow2(32)
    ensures Unmap(V6(0xffff * Pow2(32) + n)) == V4(n)
    ensures Unmap(a) != a ==> a.V6? && exists m: nat :: m < Pow2(32) && a.n == 0xffff * Pow2(32) + m && Unmap(a) == V4(m)
  {
    hide Pow2;
    DivisionIs(0xffff * Pow2(32) + n, Pow2(32), 0xffff, n);
    if Unmap(a) != a {
      var m := a.n % Pow2(32);
      assert a.n == a.n / Pow2(32) * Pow2(32) + m;
    }
  }
}
