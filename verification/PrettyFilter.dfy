// The terminal filter of `cat`: decodes UTF-8 (RFC 3629, section 3), replaces
// what cannot be printed, and writes the rest back.
module PrettyFilter {

  type Byte = b: int | 0 <= b < 256

  /** Code points that UTF-8 can carry. */
  predicate Scalar(r: int) {
    0 <= r < 0xD800 || 0xE000 <= r < 0x110000
  }

  const RuneError := 0xFFFD

  function Encode(r: int): (s: seq<Byte>)
    requires Scalar(r)
    ensures 1 <= |s| <= 4
  {
    var h1 := r / 0x40;
    var h2 := h1 / 0x40;
    var h3 := h2 / 0x40;
    if r < 0x80 then [r]
    else if r < 0x800 then [0xC0 + h1, 0x80 + r % 0x40]
    else if r < 0x10000 then [0xE0 + h2, 0x80 + h1 % 0x40, 0x80 + r % 0x40]
    else [0xF0 + h3, 0x80 + h2 % 0x40, 0x80 + h1 % 0x40, 0x80 + r % 0x40]
  }

  predicate IsCont(b: Byte) {
    0x80 <= b < 0xC0
  }

  /** The range of the second byte after a first byte, as the table of the decoder gives it. */
  predicate SecondFits(b0: Byte, b1: Byte) {
    && (if b0 == 0xE0 then 0xA0 else if b0 == 0xF0 then 0x90 else 0x80) <= b1
    && b1 < (if b0 == 0xED then 0xA0 else if b0 == 0xF4 then 0x90 else 0xC0)
  }

  /** The length that a first byte announces; 0 when it cannot start a sequence. */
  function Announced(b0: Byte): nat {
    if b0 < 0x80 then 1
    else if 0xC2 <= b0 < 0xE0 then 2
    else if 0xE0 <= b0 < 0xF0 then 3
    else if 0xF0 <= b0 < 0xF5 then 4
    else 0
  }

  /** `s` starts with a complete sequence. */
  predicate Complete(s: seq<Byte>) {
    s != [] &&
    var n := Announced(s[0]);
    && 0 < n <= |s|
    && (n >= 2 ==> SecondFits(s[0], s[1]))
    && (n >= 3 ==> IsCont(s[2]))
    && (n >= 4 ==> IsCont(s[3]))
  }

  /** `utf8.DecodeRune`: a malformed start gives the error rune and one byte. */
  function Decode(s: seq<Byte>): (d: (int, nat))
    requires s != []
    ensures Scalar(d.0) && 1 <= d.1 <= |s|
  {
    if !Complete(s) then (RuneError, 1)
    else
      var n := Announced(s[0]);
      if n == 1 then (s[0], 1)
      else if n == 2 then (Join(Low(s[0], 0xC0), Low(s[1], 0x80)), 2)
      else if n == 3 then (Join(Join(Low(s[0], 0xE0), Low(s[1], 0x80)), Low(s[2], 0x80)), 3)
      else (Join(Join(Join(Low(s[0], 0xF0), Low(s[1], 0x80)), Low(s[2], 0x80)), Low(s[3], 0x80)), 4)
  }

  /** A byte without its marker. */
  function Low(b: int, marker: int): int {
    b - marker
  }

  /** Six more bits. */
  function Join(high: int, low: int): int {
    high * 0x40 + low
  }

  /** Decoding what was encoded gives the rune back, whatever follows. */
  lemma DecodeEncode(r: int, rest: seq<Byte>)
    requires Scalar(r)
    ensures Complete(Encode(r) + rest) && Decode(Encode(r) + rest) == (r, |Encode(r)|)
  {
    var e := Encode(r);
    var s := e + rest;
    assert s[0] == e[0] && (|e| > 1 ==> s[1] == e[1]) && (|e| > 2 ==> s[2] == e[2]) && (|e| > 3 ==> s[3] == e[3]);
    EncodedFits(r);
    assert Announced(s[0]) == |e|;
    DecodeLooksAtPrefix(e, s);
  }

  lemma EncodedFits(r: int)
    requires Scalar(r)
    ensures var e := Encode(r); Announced(e[0]) == |e| && Complete(e) && Decode(e) == (r, |e|)
  {
    var h1 := r / 0x40;
    var h2 := h1 / 0x40;
    assert r == h1 * 0x40 + r % 0x40 && h1 == h2 * 0x40 + h1 % 0x40;
  }

  /** Decoding looks at no more bytes than a complete sequence has. */
  lemma DecodeLooksAtPrefix(e: seq<Byte>, s: seq<Byte>)
    requires Complete(e) && Decode(e).1 == |e| && e <= s
    ensures Complete(s) && Decode(s) == Decode(e)
  {
    assert forall i :: 0 <= i < |e| ==> s[i] == e[i];
  }

  /** A complete sequence is the encoding of the rune it decodes to. */
  lemma EncodeDecode(s: seq<Byte>)
    requires Complete(s)
    ensures Encode(Decode(s).0) == s[..Decode(s).1]
  {
    var n := Announced(s[0]);
    var h1 := Join(Low(s[0], if n == 2 then 0xC0 else if n == 3 then 0xE0 else 0xF0), if n >= 2 then Low(s[1], 0x80) else 0);
    if n >= 3 { JoinSplits(h1, Low(s[2], 0x80)); }
    if n >= 4 { JoinSplits(Join(h1, Low(s[2], 0x80)), Low(s[3], 0x80)); }
  }

  lemma JoinSplits(high: int, low: int)
    requires 0 <= low < 0x40 && high >= 0
    ensures Join(high, low) / 0x40 == high && Join(high, low) % 0x40 == low
  {
  }

  /** The caret and question mark written for what cannot be printed. */
  const Replacement: seq<Byte> := [0x5E, 0x3F]

  function Piece(r: int, printable: int -> bool): seq<Byte>
    requires Scalar(r)
  {
    if printable(r) then Encode(r) else Replacement
  }

  /** What one chunk becomes; `printable` is the union of `unicode.IsPrint` and `unicode.IsSpace`. */
  function Filter(s: seq<Byte>, printable: int -> bool): seq<Byte>
    decreases |s|
  {
    if s == [] then []
    else
      var (r, n) := Decode(s);
      Piece(r, printable) + Filter(s[n..], printable)
  }

  // ---------- filtering twice ----------

  lemma FilterOfEncoded(r: int, rest: seq<Byte>, printable: int -> bool)
    requires Scalar(r) && printable(r)
    ensures Filter(Encode(r) + rest, printable) == Encode(r) + Filter(rest, printable)
  {
    DecodeEncode(r, rest);
    assert (Encode(r) + rest)[|Encode(r)|..] == rest;
  }

  /** Filtering its own output changes nothing, for every byte string. */
  lemma {:induction false} FilterIdempotent(s: seq<Byte>, printable: int -> bool)
    requires printable(0x5E) && printable(0x3F)
    ensures Filter(Filter(s, printable), printable) == Filter(s, printable)
    decreases |s|
  {
    if s != [] {
      var (r, n) := Decode(s);
      var rest := Filter(s[n..], printable);
      FilterIdempotent(s[n..], printable);
      if printable(r) {
        FilterOfEncoded(r, rest, printable);
      } else {
        FilterOfReplacement(rest, printable);
      }
    }
  }

  lemma FilterOfReplacement(rest: seq<Byte>, printable: int -> bool)
    requires printable(0x5E) && printable(0x3F)
    ensures Filter(Replacement + rest, printable) == Replacement + Filter(rest, printable)
  {
    var caret, mark := Encode(0x5E), Encode(0x3F);
    var out := Filter(rest, printable);
    assert Replacement + rest == caret + (mark + rest);
    FilterOfEncoded(0x5E, mark + rest, printable);
    FilterOfEncoded(0x3F, rest, printable);
    assert caret + (mark + out) == Replacement + out;
  }

  // ---------- filtering in chunks ----------

  /** No rune of `s` lies across position `k`. */
  predicate Boundary(s: seq<Byte>, k: nat)
    decreases |s|
  {
    k == 0 || (s != [] && var n := Decode(s).1; n <= k && Boundary(s[n..], k - n))
  }

  lemma DecodeWithinPrefix(a: seq<Byte>, b: seq<Byte>)
    requires a != [] && Decode(a + b).1 <= |a|
    ensures Decode(a) == Decode(a + b)
  {
  }

  lemma {:induction false} ChunksAtBoundary(a: seq<Byte>, b: seq<Byte>, printable: int -> bool)
    requires Boundary(a + b, |a|)
    ensures Filter(a + b, printable) == Filter(a, printable) + Filter(b, printable)
    decreases |a|
  {
    if a == [] {
      assert a + b == b;
    } else {
      var (r, n) := Decode(a + b);
      DecodeWithinPrefix(a, b);
      assert (a + b)[n..] == a[n..] + b;
      ChunksAtBoundary(a[n..], b, printable);
      var p := Piece(r, printable);
      assert p + (Filter(a[n..], printable) + Filter(b, printable)) == p + Filter(a[n..], printable) + Filter(b, printable);
    }
  }

  /** Bytes that are each decoded alone, to the error rune. */
  lemma {:induction false} LooseBytes(s: seq<Byte>, k: nat, printable: int -> bool)
    requires k <= |s| && forall i :: 0 <= i < k ==> IsCont(s[i])
    ensures |Filter(s, printable)| == k * |Piece(RuneError, printable)| + |Filter(s[k..], printable)|
    decreases k
  {
    if k == 0 {
      assert s[0..] == s;
    } else {
      assert Decode(s) == (RuneError, 1);
      LooseBytes(s[1..], k - 1, printable);
      assert s[1..][k - 1..] == s[k..];
      var e := |Piece(RuneError, printable)|;
      assert k * e == e + (k - 1) * e;
    }
  }

  /** A rune cut by the end of a chunk becomes one error for each of its bytes. */
  lemma CutRuneDiffers(a: seq<Byte>, b: seq<Byte>, printable: int -> bool)
    requires a != [] && Decode(a + b).1 > |a|
    ensures |Filter(a + b, printable)| < |Filter(a, printable)| + |Filter(b, printable)|
  {
    var s := a + b;
    var n, e := Decode(s).1, |Piece(RuneError, printable)|;
    CutHead(a, b, printable);
    CutTail(a, b, printable);
    assert s[n..] == b[n - |a|..];
    PieceOfWhole(s, printable);
    Shares(|a|, n, e);
  }

  lemma Shares(m: int, n: int, e: int)
    requires e >= 2 && n >= 0
    ensures m * e + (n - m) * e == n * e >= n * 2
  {
    assert m * e + (n - m) * e == (m + (n - m)) * e;
    assert n * e == n * 2 + n * (e - 2);
  }

  lemma PieceOfWhole(s: seq<Byte>, printable: int -> bool)
    requires s != [] && Decode(s).1 >= 2
    ensures |Filter(s, printable)| < 2 * Decode(s).1 + |Filter(s[Decode(s).1..], printable)|
    ensures |Piece(RuneError, printable)| >= 2
  {
    EncodeDecode(s);
  }

  lemma CutHead(a: seq<Byte>, b: seq<Byte>, printable: int -> bool)
    requires a != [] && Decode(a + b).1 > |a|
    ensures |Filter(a, printable)| == |a| * |Piece(RuneError, printable)|
  {
    var s, m := a + b, |a|;
    assert forall i :: 0 <= i < m ==> a[i] == s[i];
    assert !Complete(a) && Decode(a) == (RuneError, 1);
    LooseBytes(a[1..], m - 1, printable);
    assert a[1..][m - 1..] == [];
    var e := |Piece(RuneError, printable)|;
    assert m * e == e + (m - 1) * e;
  }

  lemma CutTail(a: seq<Byte>, b: seq<Byte>, printable: int -> bool)
    requires a != [] && Decode(a + b).1 > |a|
    ensures var k := Decode(a + b).1 - |a|;
            |Filter(b, printable)| == k * |Piece(RuneError, printable)| + |Filter(b[k..], printable)|
  {
    var s, k := a + b, Decode(a + b).1 - |a|;
    assert forall i :: 0 <= i < k ==> b[i] == s[|a| + i];
    LooseBytes(b, k, printable);
  }

  lemma {:induction false} ChunksOffBoundary(a: seq<Byte>, b: seq<Byte>, printable: int -> bool)
    requires !Boundary(a + b, |a|)
    ensures |Filter(a + b, printable)| < |Filter(a, printable)| + |Filter(b, printable)|
    decreases |a|
  {
    var n := Decode(a + b).1;
    if n > |a| {
      CutRuneDiffers(a, b, printable);
    } else {
      DecodeWithinPrefix(a, b);
      assert (a + b)[n..] == a[n..] + b;
      ChunksOffBoundary(a[n..], b, printable);
    }
  }

  /** Filtering two chunks one after the other is filtering them together exactly
      when no rune lies across the cut. */
  lemma ChunksExactly(a: seq<Byte>, b: seq<Byte>, printable: int -> bool)
    ensures Filter(a + b, printable) == Filter(a, printable) + Filter(b, printable) <==> Boundary(a + b, |a|)
  {
    if Boundary(a + b, |a|) {
      ChunksAtBoundary(a, b, printable);
    } else {
      ChunksOffBoundary(a, b, printable);
    }
  }

  /** The two bytes of U+00E4 in two chunks come out as errors. */
  lemma SplitRuneIsLost(printable: int -> bool)
    ensures Filter([0xC3, 0xA4], printable) != Filter([0xC3], printable) + Filter([0xA4], printable)
  {
    var a: seq<Byte>, b: seq<Byte> := [0xC3], [0xA4];
    assert a + b == [0xC3, 0xA4] && Complete(a + b) && Decode(a + b).1 == 2;
    ChunksExactly(a, b, printable);
  }

  predicate ValidUtf8(s: seq<Byte>)
    decreases |s|
  {
    s == [] || (Complete(s) && ValidUtf8(s[Decode(s).1..]))
  }

  /** A chunk of valid UTF-8 may be followed by anything. */
  lemma {:induction false} ValidEndsAtBoundary(a: seq<Byte>, b: seq<Byte>)
    requires ValidUtf8(a)
    ensures Boundary(a + b, |a|)
    decreases |a|
  {
    if a != [] {
      assert Decode(a + b) == Decode(a);
      var n := Decode(a).1;
      assert (a + b)[n..] == a[n..] + b;
      ValidEndsAtBoundary(a[n..], b);
    }
  }

  /** Filtering always gives valid UTF-8. */
  lemma {:induction false} FilterGivesValid(s: seq<Byte>, printable: int -> bool)
    ensures ValidUtf8(Filter(s, printable))
    decreases |s|
  {
    if s != [] {
      var (r, n) := Decode(s);
      var rest := Filter(s[n..], printable);
      FilterGivesValid(s[n..], printable);
      if printable(r) {
        ValidAfterEncoded(r, rest);
      } else {
        ValidAfterEncoded(0x3F, rest);
        ValidAfterEncoded(0x5E, [0x3F] + rest);
        assert Replacement + rest == Encode(0x5E) + ([0x3F] + rest);
        assert [0x3F] + rest == Encode(0x3F) + rest;
      }
    }
  }

  lemma ValidAfterEncoded(r: int, rest: seq<Byte>)
    requires Scalar(r) && ValidUtf8(rest)
    ensures ValidUtf8(Encode(r) + rest)
  {
    DecodeEncode(r, rest);
    assert (Encode(r) + rest)[|Encode(r)|..] == rest;
  }
}
