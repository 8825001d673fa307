// What the terminal filter of `cat` shows, character by character, and its writer.
module PrettyOutput {
  import opened PrettyFilter

  // ---------- what the filter shows ----------

  /** The characters of a byte string, as a Go loop meets them. */
  function Runes(s: seq<Byte>): seq<int>
    decreases |s|
  {
    if s == [] then [] else var (r, n) := Decode(s); [r] + Runes(s[n..])
  }

  function EncodeAll(runes: seq<int>): seq<Byte>
    requires forall r :: r in runes ==> Scalar(r)
  {
    if runes == [] then [] else Encode(runes[0]) + EncodeAll(runes[1..])
  }

  lemma {:induction false} RunesAreScalar(s: seq<Byte>)
    ensures forall r :: r in Runes(s) ==> Scalar(r)
    decreases |s|
  {
    if s != [] { RunesAreScalar(s[Decode(s).1..]); }
  }

  lemma RunesAfterEncoded(r: int, rest: seq<Byte>)
    requires Scalar(r)
    ensures Runes(Encode(r) + rest) == [r] + Runes(rest)
  {
    DecodeEncode(r, rest);
    assert (Encode(r) + rest)[|Encode(r)|..] == rest;
  }

  /** A byte string that encodes characters has exactly those. */
  lemma {:induction false} RunesOfEncoded(runes: seq<int>)
    requires forall r :: r in runes ==> Scalar(r)
    ensures Runes(EncodeAll(runes)) == runes
  {
    if runes != [] {
      RunesAfterEncoded(runes[0], EncodeAll(runes[1..]));
      RunesOfEncoded(runes[1..]);
    }
  }

  lemma EncodeAllStep(r: int, runes: seq<int>)
    requires Scalar(r) && forall x :: x in runes ==> Scalar(x)
    ensures (forall x :: x in [r] + runes ==> Scalar(x)) && EncodeAll([r] + runes) == Encode(r) + EncodeAll(runes)
  {
    assert ([r] + runes)[1..] == runes;
  }

  lemma {:induction false} ValidIsEncoded(s: seq<Byte>)
    requires ValidUtf8(s)
    ensures (forall r :: r in Runes(s) ==> Scalar(r)) && EncodeAll(Runes(s)) == s
    decreases |s|
  {
    RunesAreScalar(s);
    if s != [] {
      var (r, n) := Decode(s);
      EncodeDecode(s);
      ValidIsEncoded(s[n..]);
      EncodeAllStep(r, Runes(s[n..]));
      assert s == s[..n] + s[n..];
    }
  }

  /** A malformed start is one error, for its first byte alone. */
  lemma MalformedIsOneError(s: seq<Byte>)
    requires s != [] && !Complete(s)
    ensures Runes(s) == [0xFFFD] + Runes(s[1..])
  {
  }

  /** Each character as it is when it can be printed, and otherwise '^' and '?'. */
  function Shown(runes: seq<int>, printable: int -> bool): seq<int> {
    if runes == [] then []
    else (if printable(runes[0]) then [runes[0]] else [0x5E, 0x3F]) + Shown(runes[1..], printable)
  }

  /** The valid byte string whose characters are those of the input as shown. */
  ghost predicate IsShown(input: seq<Byte>, out: seq<Byte>, printable: int -> bool) {
    ValidUtf8(out) && Runes(out) == Shown(Runes(input), printable)
  }

  lemma ShownStep(r: int, runes: seq<int>, printable: int -> bool)
    ensures Shown([r] + runes, printable) == (if printable(r) then [r] else [0x5E, 0x3F]) + Shown(runes, printable)
  {
    assert ([r] + runes)[1..] == runes;
  }

  lemma RunesAfterReplacement(rest: seq<Byte>)
    ensures Runes(Replacement + rest) == [0x5E, 0x3F] + Runes(rest)
  {
    var marked := [0x3F] + rest;
    AsciiFirst(0x3F, rest);
    AsciiFirst(0x5E, marked);
    assert Replacement + rest == [0x5E] + marked;
    TwoThenRest(Runes(rest));
  }

  lemma TwoThenRest(runes: seq<int>)
    ensures [0x5E] + ([0x3F] + runes) == [0x5E, 0x3F] + runes
  {
  }

  lemma AsciiFirst(b: Byte, rest: seq<Byte>)
    requires b < 0x80
    ensures Runes([b] + rest) == [b] + Runes(rest)
  {
    assert Decode([b] + rest) == (b, 1) && ([b] + rest)[1..] == rest;
  }

  lemma {:induction false} RunesOfFilter(s: seq<Byte>, printable: int -> bool)
    ensures Runes(Filter(s, printable)) == Shown(Runes(s), printable)
    decreases |s|
  {
    if s != [] {
      var (r, n) := Decode(s);
      RunesOfFilter(s[n..], printable);
      ShownStep(r, Runes(s[n..]), printable);
      RunesOfPiece(r, Filter(s[n..], printable), printable);
    }
  }

  lemma RunesOfPiece(r: int, rest: seq<Byte>, printable: int -> bool)
    requires Scalar(r)
    ensures Runes(Piece(r, printable) + rest) == (if printable(r) then [r] else [0x5E, 0x3F]) + Runes(rest)
  {
    RunesAfterEncoded(r, rest);
    RunesAfterReplacement(rest);
  }

  /** The output is determined: exactly the valid byte string whose characters are
      those of the input, with '^' and '?' for each that cannot be printed. */
  lemma FilterExactly(s: seq<Byte>, out: seq<Byte>, printable: int -> bool)
    ensures IsShown(s, out, printable) <==> out == Filter(s, printable)
  {
    FilterGivesValid(s, printable);
    RunesOfFilter(s, printable);
    if IsShown(s, out, printable) {
      ValidIsEncoded(out);
      ValidIsEncoded(Filter(s, printable));
    }
  }

  lemma {:induction false} ShownIsPrintable(runes: seq<int>, printable: int -> bool)
    requires printable(0x5E) && printable(0x3F)
    ensures forall r :: r in Shown(runes, printable) ==> printable(r)
  {
    if runes != [] { ShownIsPrintable(runes[1..], printable); }
  }

  /** Nothing that cannot be printed comes out. */
  lemma OutputIsPrintable(s: seq<Byte>, printable: int -> bool)
    requires printable(0x5E) && printable(0x3F)
    ensures forall r :: r in Runes(Filter(s, printable)) ==> printable(r)
  {
    RunesOfFilter(s, printable);
    ShownIsPrintable(Runes(s), printable);
  }

  lemma {:induction false} AllPrintableAreShown(runes: seq<int>, printable: int -> bool)
    requires forall r :: r in runes ==> printable(r)
    ensures Shown(runes, printable) == runes
  {
    if runes != [] {
      var r := runes[0];
      assert r in runes;
      assert printable(r);
      assert runes == [r] + runes[1..];
      AllPrintableAreShown(runes[1..], printable);
    }
  }

  /** An input comes out unchanged if and only if it is valid and all of it can be printed. */
  lemma UnchangedExactly(s: seq<Byte>, printable: int -> bool)
    requires printable(0x5E) && printable(0x3F)
    ensures Filter(s, printable) == s <==> ValidUtf8(s) && forall r :: r in Runes(s) ==> printable(r)
  {
    if Filter(s, printable) == s {
      FilterGivesValid(s, printable);
      OutputIsPrintable(s, printable);
    } else if forall r :: r in Runes(s) ==> printable(r) {
      AllPrintableAreShown(Runes(s), printable);
      FilterExactly(s, s, printable);
    }
  }

  /** What cannot be printed is replaced where it stands: an escape sequence loses its escape. */
  lemma EscapeIsReplaced(rest: seq<Byte>, printable: int -> bool)
    requires !printable(0x1B)
    ensures Filter([0x1B] + rest, printable) == [0x5E, 0x3F] + Filter(rest, printable)
  {
    assert Decode([0x1B] + rest) == (0x1B, 1) && ([0x1B] + rest)[1..] == rest;
  }

  function At(s: seq<Byte>, i: nat): int
    requires i < |s|
  {
    s[i]
  }

  /** The table of section 3 of RFC 3629: the ranges and the bits of each length. */
  lemma EncodeIsTable(r: int)
    requires Scalar(r)
    ensures var s := Encode(r);
            && (r <= 0x7F <==> |s| == 1) && (0x80 <= r <= 0x7FF <==> |s| == 2)
            && (0x800 <= r <= 0xFFFF <==> |s| == 3) && (0x1_0000 <= r <==> |s| == 4)
            && (forall i :: 1 <= i < |s| ==> 0x80 <= s[i] < 0xC0)
            && (|s| == 1 ==> r == s[0])
            && (|s| == 2 ==> 0xC0 <= s[0] < 0xE0 && r == (At(s, 0) - 0xC0) * 0x40 + At(s, 1) - 0x80)
            && (|s| == 3 ==> 0xE0 <= s[0] < 0xF0 && r == ((At(s, 0) - 0xE0) * 0x40 + At(s, 1) - 0x80) * 0x40 + At(s, 2) - 0x80)
            && (|s| == 4 ==> 0xF0 <= s[0] < 0xF8
                             && r == (((At(s, 0) - 0xF0) * 0x40 + At(s, 1) - 0x80) * 0x40 + At(s, 2) - 0x80) * 0x40 + At(s, 3) - 0x80)
  {
  }

  /** Three of the examples of section 7 of RFC 3629. */
  lemma EncodeExamples()
    ensures Encode(0x2262) == [0xE2, 0x89, 0xA2] && Encode(0x0391) == [0xCE, 0x91] && Encode(0x233B4) == [0xF0, 0xA3, 0x8E, 0xB4]
  {
  }

  // ---------- the writer ----------

  lemma MovePiece(buffer: seq<Byte>, left: seq<Byte>, printable: int -> bool)
    requires left != []
    ensures var (r, n) := Decode(left);
            buffer + Piece(r, printable) + Filter(left[n..], printable) == buffer + Filter(left, printable)
  {
    var (r, n) := Decode(left);
    assert buffer + Piece(r, printable) + Filter(left[n..], printable) == buffer + (Piece(r, printable) + Filter(left[n..], printable));
  }

  /** Where the filter writes: it may take any part of what it is given, and fail. */
  class Output {
    var written: seq<Byte>

    constructor ()
      ensures written == []
    {
      written := [];
    }

    method Write(p: seq<Byte>, taken: nat, fails: bool) returns (n: nat, ok: bool)
      requires taken <= |p|
      modifies this
      ensures n == taken && ok == !fails
      ensures written == old(written) + p[..n]
    {
      written := written + p[..taken];
      n, ok := taken, !fails;
    }
  }

  class PrettyStdout {
    const writer: Output
    const printable: int -> bool
    var buffer: seq<Byte>

    constructor (w: Output, printable: int -> bool)
      ensures writer == w && this.printable == printable && buffer == []
    {
      writer, this.printable, buffer := w, printable, [];
    }

    /** `Buffer.WriteTo`: what the writer took leaves the buffer; a short write is an error. */
    method Flush(taken: nat, fails: bool) returns (n: nat, ok: bool)
      requires taken <= |buffer|
      modifies this, writer
      ensures writer.written + buffer == old(writer.written + buffer)
      ensures |buffer| == old(|buffer|) - n
      ensures n == if old(buffer) == [] then 0 else taken
      ensures ok <==> (old(buffer) == [] || (!fails && n == old(|buffer|)))
    {
      n, ok := 0, true;
      if buffer != [] {
        var bufLen := |buffer|;
        n, ok := writer.Write(buffer, taken, fails);
        buffer := buffer[n..];
        if n != bufLen { ok := false; }
      }
    }

    /** The loop of `Write`: appends the filtered input to the buffer. */
    method Fill(input: seq<Byte>)
      modifies this
      ensures buffer == old(buffer) + Filter(input, printable)
    {
      var left := input;
      while left != []
        invariant buffer + Filter(left, printable) == old(buffer) + Filter(input, printable)
        decreases |left|
      {
        var (r, size) := Decode(left);
        MovePiece(buffer, left, printable);
        if printable(r) {
          buffer := buffer + Encode(r);
        } else {
          buffer := buffer + Replacement;
        }
        left := left[size..];
      }
      assert buffer + [] == buffer;
    }

    /** `Write`; `taken` and `fails` say what the underlying writer will do.
        Nothing is lost: what was written and what is still buffered is what was
        there before followed by the filtered input. */
    method Write(input: seq<Byte>, taken: nat, fails: bool) returns (n: nat, ok: bool)
      requires taken <= |buffer| + |Filter(input, printable)|
      modifies this, writer
      ensures writer.written + buffer == old(writer.written + buffer) + Filter(input, printable)
      ensures exists out :: IsShown(input, out, printable) && writer.written + buffer == old(writer.written + buffer) + out
      ensures ok ==> n == |input| && buffer == []
      ensures !ok ==> n == 0
      ensures ok <==> (old(buffer) + Filter(input, printable) == []
                       || (!fails && taken == |old(buffer) + Filter(input, printable)|))
    {
      var inputLen := |input|;
      FilterExactly(input, Filter(input, printable), printable);
      Fill(input);
      var bufLen := |buffer|;
      var m, good := Flush(taken, fails);
      if !good || m != bufLen { return 0, false; }
      return inputLen, true;
    }
  }
}
