/** Byte strings: lexicographic order, ordered iteration, and the fixed-width integer encodings
    that the storage layer relies on. */
module ByteStrings {

  type byte = x: int | 0 <= x < 256
  type Bytes = seq<byte>

  const MAX_I64: int := 0x7fff_ffff_ffff_ffff
  const TWO_64: int := 0x1_0000_0000_0000_0000
  const TWO_32: int := 0x1_0000_0000

  type i64 = x: int | -MAX_I64 - 1 <= x <= MAX_I64

  datatype Option<+T> = None | Some(value: T)

  /** What a call into the Rust code can do: return normally, return an error, or panic. */
  datatype Outcome<+T> = Done(value: T) | Failed | Panicked

  // ---------------------------------------------------------------- sequences

  function ElementsOf<T>(s: seq<T>): set<T> {
    set x | x in s
  }

  ghost predicate Distinct<T>(s: seq<T>) {
    forall i, j :: 0 <= i < j < |s| ==> s[i] != s[j]
  }

  lemma {:induction false} DistinctCount<T>(s: seq<T>)
    requires Distinct(s)
    ensures |ElementsOf(s)| == |s|
  {
    if s != [] {
      var rest := s[1..];
      DistinctCount(rest);
      assert s == [s[0]] + rest && s[0] !in rest;
      assert ElementsOf(s) == ElementsOf(rest) + {s[0]};
    }
  }

  lemma SliceAt(data: Bytes, offset: nat, i: nat, j: nat)
    requires i <= j && offset + j <= |data|
    ensures data[offset..][i..j] == data[offset + i..offset + j]
    ensures data[offset..][j..] == data[offset + j..]
  {
  }

  // ---------------------------------------------------------------- lexicographic order

  /** Strict lexicographic order on byte strings: the order of sled trees and of `BTreeMap<Vec<u8>, _>`. */
  predicate Less(a: Bytes, b: Bytes) {
    if b == [] then false
    else if a == [] then true
    else if a[0] != b[0] then a[0] < b[0]
    else Less(a[1..], b[1..])
  }

  lemma {:induction false} LessTotal(a: Bytes, b: Bytes)
    ensures a == b || Less(a, b) || Less(b, a)
    ensures !(Less(a, b) && Less(b, a))
    ensures a == b ==> !Less(a, b)
  {
    if a != [] && b != [] {
      LessTotal(a[1..], b[1..]);
      if a[0] == b[0] && a[1..] == b[1..] {
        assert a == [a[0]] + a[1..] == b;
      }
    }
  }

  lemma {:induction false} LessTransitive(a: Bytes, b: Bytes, c: Bytes)
    requires Less(a, b) && Less(b, c)
    ensures Less(a, c)
  {
    if a != [] && a[0] == b[0] == c[0] {
      LessTransitive(a[1..], b[1..], c[1..]);
    }
  }

  lemma {:induction false} LessAfterPrefix(p: Bytes, a: Bytes, b: Bytes)
    ensures Less(p + a, p + b) == Less(a, b)
  {
    if p == [] {
      assert p + a == a && p + b == b;
    } else {
      assert (p + a)[1..] == p[1..] + a && (p + b)[1..] == p[1..] + b;
      LessAfterPrefix(p[1..], a, b);
    }
  }

  /** Strings of equal length compare the same way whatever is appended, unless they are equal. */
  lemma {:induction false} LessByPrefix(p: Bytes, q: Bytes, a: Bytes, b: Bytes)
    requires |p| == |q| && p != q
    ensures Less(p + a, q + b) == Less(p, q)
  {
    if p[0] == q[0] {
      assert (p + a)[1..] == p[1..] + a && (q + b)[1..] == q[1..] + b;
      assert p == [p[0]] + p[1..] && q == [q[0]] + q[1..];
      LessByPrefix(p[1..], q[1..], a, b);
    }
  }

  /** `key ++ 0x00` is the immediate successor of `key`: the half-open interval between them holds
      `key` alone. This is what single-key lookups rely on. */
  lemma {:induction false} SuccessorIsTight(key: Bytes, k: Bytes)
    ensures !Less(k, key) && Less(k, key + [0]) <==> k == key
  {
    if key == [] {
      assert key + [0] == [0];
    } else {
      assert (key + [0])[1..] == key[1..] + [0];
      if k != [] {
        SuccessorIsTight(key[1..], k[1..]);
        if k[0] == key[0] && k[1..] == key[1..] {
          assert k == [k[0]] + k[1..] == key;
        }
      }
    }
  }

  // ---------------------------------------------------------------- ordered iteration

  ghost predicate Ascending(s: seq<Bytes>) {
    forall i, j :: 0 <= i < j < |s| ==> Less(s[i], s[j])
  }

  predicate IsLeast(m: Bytes, s: set<Bytes>) {
    m in s && forall k :: k in s ==> k == m || Less(m, k)
  }

  lemma {:induction false} LeastExists(s: set<Bytes>)
    requires s != {}
    ensures exists m :: IsLeast(m, s)
  {
    var m :| m in s;
    if s == {m} {
      assert IsLeast(m, s);
    } else {
      LeastExists(s - {m});
      var n :| IsLeast(n, s - {m});
      LessTotal(m, n);
      if Less(n, m) {
        assert IsLeast(n, s);
      } else {
        forall k | k in s ensures k == m || Less(m, k) {
          if k != m && k != n {
            LessTransitive(m, n, k);
          }
        }
        assert IsLeast(m, s);
      }
    }
  }

  lemma LeastUnique(s: set<Bytes>, m: Bytes, n: Bytes)
    requires IsLeast(m, s) && IsLeast(n, s)
    ensures m == n
  {
    LessTotal(m, n);
  }

  /** The keys of a tree in the order its iterator yields them. */
  function SortedKeys(s: set<Bytes>): (r: seq<Bytes>)
    ensures forall k :: k in r <==> k in s
    ensures Ascending(r)
    ensures |r| == |s|
  {
    if s == {} then []
    else
      LeastExists(s);
      assert forall m, n :: IsLeast(m, s) && IsLeast(n, s) ==> m == n by {
        forall m, n | IsLeast(m, s) && IsLeast(n, s) ensures m == n { LeastUnique(s, m, n); }
      }
      var m :| m in s && IsLeast(m, s);
      [m] + SortedKeys(s - {m})
  }

  lemma AscendingDistinct(s: seq<Bytes>)
    requires Ascending(s)
    ensures Distinct(s)
  {
    forall i, j | 0 <= i < j < |s| ensures s[i] != s[j] { LessTotal(s[i], s[j]); }
  }

  lemma AscendingPrefixExcludes(s: seq<Bytes>, i: nat)
    requires Ascending(s) && i < |s|
    ensures s[i] !in s[..i]
  {
    if s[i] in s[..i] {
      var j :| 0 <= j < i && s[j] == s[i];
      LessTotal(s[i], s[j]);
      assert false;
    }
  }

  /** Ascending sequences are determined by their elements. */
  lemma {:induction false} AscendingUnique(a: seq<Bytes>, b: seq<Bytes>)
    requires Ascending(a) && Ascending(b)
    requires forall k :: k in a <==> k in b
    ensures a == b
  {
    assert b != [] ==> b[0] in a;
    assert a != [] ==> a[0] in b;
    if a != [] {
      var i :| 0 <= i < |b| && b[i] == a[0];
      var j :| 0 <= j < |a| && a[j] == b[0];
      if i > 0 {
        LessTotal(a[0], b[0]);
      }
      assert a[0] == b[0];
      forall k ensures k in a[1..] <==> k in b[1..] {
        if k in a[1..] {
          var t :| 1 <= t < |a| && a[t] == k;
          LessTotal(a[0], k);
          assert k in b;
        }
        if k in b[1..] {
          var t :| 1 <= t < |b| && b[t] == k;
          LessTotal(b[0], k);
          assert k in a;
        }
      }
      AscendingUnique(a[1..], b[1..]);
      assert a == [a[0]] + a[1..] && b == [b[0]] + b[1..];
    }
  }

  lemma AscendingIsSorted(a: seq<Bytes>, s: set<Bytes>)
    requires Ascending(a) && forall k :: k in a <==> k in s
    ensures a == SortedKeys(s)
  {
    AscendingUnique(a, SortedKeys(s));
  }

  // ---------------------------------------------------------------- fixed-width integers

  function Pow256(n: nat): (p: nat)
    ensures p >= 1
  {
    if n == 0 then 1 else 256 * Pow256(n - 1)
  }

  /** Little-endian bytes of `n` in `width` bytes (higher bytes are dropped, as a cast does). */
  function LittleEndian(n: nat, width: nat): (b: Bytes)
    ensures |b| == width
  {
    if width == 0 then [] else [n % 256] + LittleEndian(n / 256, width - 1)
  }

  function FromLittleEndian(b: Bytes): nat {
    if b == [] then 0 else b[0] + 256 * FromLittleEndian(b[1..])
  }

  lemma {:induction false} LittleEndianRoundTrip(n: nat, width: nat)
    requires n < Pow256(width)
    ensures FromLittleEndian(LittleEndian(n, width)) == n
  {
    if width > 0 {
      LittleEndianRoundTrip(n / 256, width - 1);
      assert LittleEndian(n, width)[1..] == LittleEndian(n / 256, width - 1);
    }
  }

  lemma Multiples(d: nat, k: int)
    ensures (k >= 1 ==> d * k >= d) && (k <= -1 ==> d * k <= 0 - d)
  {
    if k >= 1 {
      assert d * k == d + d * (k - 1);
    } else if k <= -1 {
      assert d * k == d * (k + 1) - d;
    }
  }

  lemma QuotientIs(n: nat, d: nat, q: nat, r: nat)
    requires n == d * q + r && r < d
    ensures n / d == q
  {
    assert n == d * (n / d) + n % d;
    assert d * (n / d - q) == d * (n / d) - d * q;
    Multiples(d, n / d - q);
  }

  lemma DivideTwice(n: nat, p: nat)
    requires p >= 1
    ensures n / 256 / p == n / (256 * p)
  {
    var q, r := n / 256 / p, n / 256 % p;
    assert n / 256 == p * q + r;
    assert n == 256 * (p * q + r) + n % 256;
    assert 256 * (p * q) == (256 * p) * q;
    QuotientIs(n, 256 * p, q, 256 * r + n % 256);
  }

  /** Byte `i` of a little-endian number is its digit of weight 256 to the `i`. */
  lemma {:induction false} LittleEndianDigit(n: nat, width: nat, i: nat)
    requires i < width
    ensures LittleEndian(n, width)[i] == n / Pow256(i) % 256
  {
    if i > 0 {
      LittleEndianDigit(n / 256, width - 1, i - 1);
      DivideTwice(n, Pow256(i - 1));
    }
  }

  lemma DigitSplit(d: byte, n: nat)
    ensures (d + 256 * n) % 256 == d && (d + 256 * n) / 256 == n
  {
  }

  lemma {:induction false} LittleEndianInverse(b: Bytes)
    ensures LittleEndian(FromLittleEndian(b), |b|) == b
  {
    if b != [] {
      DigitSplit(b[0], FromLittleEndian(b[1..]));
      LittleEndianInverse(b[1..]);
    }
  }

  function BigEndian(n: nat, width: nat): (b: Bytes)
    ensures |b| == width
  {
    if width == 0 then [] else BigEndian(n / 256, width - 1) + [n % 256]
  }

  function FromBigEndian(b: Bytes): nat {
    if b == [] then 0 else 256 * FromBigEndian(b[..|b| - 1]) + b[|b| - 1]
  }

  lemma {:induction false} BigEndianRoundTrip(n: nat, width: nat)
    requires n < Pow256(width)
    ensures FromBigEndian(BigEndian(n, width)) == n
  {
    if width > 0 {
      BigEndianRoundTrip(n / 256, width - 1);
      assert BigEndian(n, width)[..width - 1] == BigEndian(n / 256, width - 1);
    }
  }

  /** In a big-endian number the weights fall: its last byte is the lowest digit. */
  lemma {:induction false} BigEndianDigit(n: nat, width: nat, i: nat)
    requires i < width
    ensures BigEndian(n, width)[width - 1 - i] == n / Pow256(i) % 256
  {
    if i > 0 {
      BigEndianDigit(n / 256, width - 1, i - 1);
      DivideTwice(n, Pow256(i - 1));
    }
  }

  /** Big-endian encoding embeds numeric order into byte order. */
  lemma {:induction false} BigEndianOrder(m: nat, n: nat, width: nat)
    requires m < Pow256(width) && n < Pow256(width)
    ensures Less(BigEndian(m, width), BigEndian(n, width)) <==> m < n
  {
    if width > 0 {
      var p, q := BigEndian(m / 256, width - 1), BigEndian(n / 256, width - 1);
      BigEndianOrder(m / 256, n / 256, width - 1);
      if m / 256 == n / 256 {
        LessAfterPrefix(p, [m % 256], [n % 256]);
      } else {
        BigEndianRoundTrip(m / 256, width - 1);
        BigEndianRoundTrip(n / 256, width - 1);
        LessByPrefix(p, q, [m % 256], [n % 256]);
      }
    }
  }

  lemma Widths()
    ensures Pow256(4) == TWO_32 && Pow256(8) == TWO_64
  {
    assert Pow256(1) == 256;
    assert Pow256(2) == 0x1_0000;
    assert Pow256(3) == 0x100_0000;
    assert Pow256(4) == 0x1_0000_0000;
    assert Pow256(5) == 0x100_0000_0000;
    assert Pow256(6) == 0x1_0000_0000_0000;
    assert Pow256(7) == 0x100_0000_0000_0000;
  }

  /** `i64` as the unsigned integer with the same two's-complement bits, and back. */
  function Unsigned(x: i64): nat {
    if x < 0 then x + TWO_64 else x
  }

  function Signed(n: nat): i64
    requires n < TWO_64
  {
    if n > MAX_I64 then n - TWO_64 else n
  }

  lemma {:induction false} FromLittleEndianBound(b: Bytes)
    ensures FromLittleEndian(b) < Pow256(|b|)
  {
    if b != [] {
      FromLittleEndianBound(b[1..]);
    }
  }

  lemma {:induction false} FromBigEndianBound(b: Bytes)
    ensures FromBigEndian(b) < Pow256(|b|)
  {
    if b != [] {
      FromBigEndianBound(b[..|b| - 1]);
    }
  }

  /** `i64::to_le_bytes` and `i64::from_le_bytes`. */
  function I64Le(x: i64): (b: Bytes)
    ensures |b| == 8
  {
    LittleEndian(Unsigned(x), 8)
  }

  function I64FromLe(b: Bytes): i64
    requires |b| == 8
  {
    FromLittleEndianBound(b);
    Widths();
    Signed(FromLittleEndian(b))
  }

  lemma I64LeRoundTrip(x: i64)
    ensures I64FromLe(I64Le(x)) == x
  {
    Widths();
    LittleEndianRoundTrip(Unsigned(x), 8);
  }

  lemma I64LeInverse(b: Bytes)
    requires |b| == 8
    ensures I64Le(I64FromLe(b)) == b
  {
    Widths();
    FromLittleEndianBound(b);
    LittleEndianInverse(b);
  }

  /** `i64::to_be_bytes` and `i64::from_be_bytes`. */
  function I64Be(x: i64): (b: Bytes)
    ensures |b| == 8
  {
    BigEndian(Unsigned(x), 8)
  }

  function I64FromBe(b: Bytes): i64
    requires |b| == 8
  {
    FromBigEndianBound(b);
    Widths();
    Signed(FromBigEndian(b))
  }

  lemma I64BeRoundTrip(x: i64)
    ensures I64FromBe(I64Be(x)) == x
  {
    Widths();
    BigEndianRoundTrip(Unsigned(x), 8);
  }

  lemma {:induction false} BigEndianInverse(b: Bytes)
    ensures BigEndian(FromBigEndian(b), |b|) == b
  {
    if b != [] {
      var n := |b| - 1;
      DigitSplit(b[n], FromBigEndian(b[..n]));
      BigEndianInverse(b[..n]);
    }
  }

  lemma I64BeInverse(b: Bytes)
    requires |b| == 8
    ensures I64Be(I64FromBe(b)) == b
  {
    Widths();
    FromBigEndianBound(b);
    BigEndianInverse(b);
  }

  /** `(len as u32).to_le_bytes()`: the cast keeps the low 32 bits. */
  function U32Le(n: nat): (b: Bytes)
    ensures |b| == 4
  {
    LittleEndian(n % TWO_32, 4)
  }

  function U32FromLe(b: Bytes): nat
    requires |b| == 4
  {
    FromLittleEndian(b)
  }

  lemma U32LeRoundTrip(n: nat)
    requires n < TWO_32
    ensures U32FromLe(U32Le(n)) == n
  {
    assert n % TWO_32 == n;
    assert n < Pow256(4) by { Widths(); }
    LittleEndianRoundTrip(n, 4);
  }

  lemma U32LeInverse(b: Bytes)
    requires |b| == 4
    ensures U32FromLe(b) < TWO_32 && U32Le(U32FromLe(b)) == b
  {
    Widths();
    FromLittleEndianBound(b);
    LittleEndianInverse(b);
  }

  /** The byte order of the three encodings: digit `i` of the number lies at byte `i`, or at the same place
      from the end; negative numbers are two's complements, and lengths lose what is above 32 bits. */
  lemma BytesOnDisk(x: i64, n: nat, i: nat)
    ensures i < 8 ==> I64Le(x)[i] == Unsigned(x) / Pow256(i) % 256 && I64Be(x)[7 - i] == Unsigned(x) / Pow256(i) % 256
    ensures i < 4 ==> U32Le(n)[i] == n % TWO_32 / Pow256(i) % 256
  {
    if i < 8 {
      LittleEndianDigit(Unsigned(x), 8, i);
      BigEndianDigit(Unsigned(x), 8, i);
    }
    if i < 4 { LittleEndianDigit(n % TWO_32, 4, i); }
  }
}
