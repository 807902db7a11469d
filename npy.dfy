/** Reading the header of NumPy's `.npy` format, version 1.0, and
    deserializing an owned array from it (src/io.rs).

    The stream is the byte sequence `input`, read from its start; the
    reader's cursor is a local position. A header starts with the magic
    `\\x93NUMPY`, the version bytes 1 and 0, a little-endian 16-bit header
    length H and H bytes of text holding a dictionary literal, which is
    split on whitespace and read by position: `{'descr':` then the dtype,
    `'fortran_order':` then a boolean, `'shape':` then the shape tuple up to
    `}`. The data begins at byte 10 + H, which must be a multiple of 64. */
module Npy {
  import opened Outcomes
  import opened Bytes
  import opened Text
  import opened ArrayIdx
  import opened MemArrays

  datatype NpyEndianness = Little | Big

  datatype NpyDtype =
    Float32 | Float64 | Int8 | Int16 | Int32 | Int64 | UInt8 | UInt16 | UInt32 | UInt64

  datatype NpyDtypeDesc = NpyDtypeDesc(endian: Option<NpyEndianness>, dtype: NpyDtype)

  /** The element types that have a dtype descriptor: u8, f32 and f64. */
  datatype Elem = U8 | F32 | F64

  /** `size_of` of each element type. */
  function SizeOf(t: Elem): nat
  {
    match t
    case U8 => 1
    case F32 => 4
    case F64 => 8
  }

  /** `ToNpyDtypeDesc`: u8 has no byte order; the floats carry the byte order
      of the target, `native`. */
  function ToNpyDtypeDesc(t: Elem, native: NpyEndianness): (d: NpyDtypeDesc)
    ensures d.endian.None? <==> t == U8
    ensures d.endian.Some? ==> d.endian.value == native
  {
    match t
    case U8 => NpyDtypeDesc(None, UInt8)
    case F32 => NpyDtypeDesc(Some(native), Float32)
    case F64 => NpyDtypeDesc(Some(native), Float64)
  }

  /** The descriptor token of each element type as it stands in a header. */
  function DescrToken(t: Elem): string
  {
    match t
    case U8 => "'|u1',"
    case F32 => "'<f4',"
    case F64 => "'<f8',"
  }

  /** `NpyDtypeDesc::parse`: the three tokens of the table; any other token
      reaches `unimplemented!` (None). The result is the little-endian
      descriptor of the element type whose token was read. */
  function ParseDtypeDesc(desc: string): (r: Option<NpyDtypeDesc>)
    ensures r.Some? <==> exists t :: desc == DescrToken(t)
    ensures forall t :: desc == DescrToken(t) ==> r == Some(ToNpyDtypeDesc(t, Little))
  {
    if desc == "'|u1'," then
      assert desc == DescrToken(U8);
      Some(NpyDtypeDesc(None, UInt8))
    else if desc == "'<f4'," then
      assert desc == DescrToken(F32);
      Some(NpyDtypeDesc(Some(Little), Float32))
    else if desc == "'<f8'," then
      assert desc == DescrToken(F64);
      Some(NpyDtypeDesc(Some(Little), Float64))
    else
      assert forall t :: desc != DescrToken(t);
      None
  }

  /** `NpyDtypeDesc::matches::<T>`: the descriptor is T's own. */
  predicate Matches(d: NpyDtypeDesc, t: Elem, native: NpyEndianness): (b: bool)
    ensures b ==> (d.endian.None? <==> t == U8)
    ensures b ==> d.dtype == UInt8 || d.dtype == Float32 || d.dtype == Float64
  {
    d == ToNpyDtypeDesc(t, native)
  }

  /** A parsed descriptor matches an element type exactly when the token was
      that type's and, for the floats, the target is little-endian: a
      big-endian target accepts only u8 data. */
  lemma ParsedMatches(desc: string, t: Elem, native: NpyEndianness)
    ensures (ParseDtypeDesc(desc).Some? && Matches(ParseDtypeDesc(desc).value, t, native)) <==>
            (desc == DescrToken(t) && (t == U8 || native == Little))
  {
    if ParseDtypeDesc(desc).Some? && Matches(ParseDtypeDesc(desc).value, t, native) {
      var u :| desc == DescrToken(u);
      assert ToNpyDtypeDesc(u, Little) == ToNpyDtypeDesc(t, native);
    }
  }

  /** A descriptor matches at most one element type: the table gives
      distinct types distinct descriptors. */
  lemma MatchesOneType(d: NpyDtypeDesc, t: Elem, u: Elem, native: NpyEndianness)
    requires Matches(d, t, native) && Matches(d, u, native)
    ensures t == u
  {
  }

  datatype NpyHeader = NpyHeader(dtypeDesc: NpyDtypeDesc, colMajor: bool, ndSize: seq<nat>, dataOffset: nat)

  /** `\\x93NUMPY`. */
  const NpyMagic: seq<byte> := [0x93, 0x4E, 0x55, 0x4D, 0x50, 0x59]

  /** A shape token with its parentheses and commas removed: none of the
      three is left, and nothing is added. */
  function StripShapeToken(tok: string): (r: string)
    ensures '(' !in r && ')' !in r && ',' !in r
    ensures |r| <= |tok|
  {
    var a := Remove(tok, '(');
    var b := Remove(a, ')');
    RemoveKeepsAbsent(a, ')', '(');
    RemoveKeepsAbsent(b, ',', '(');
    RemoveKeepsAbsent(b, ',', ')');
    Remove(b, ',')
  }

  /** Prefixes the parsed sizes to the rest of a shape parse. */
  function Prepend(front: seq<nat>, rest: Option<seq<nat>>): (r: Option<seq<nat>>)
    ensures r.Some? <==> rest.Some?
    ensures r.Some? ==> r.value == front + rest.value
  {
    match rest
    case None => None
    case Some(r) => Some(front + r)
  }

  /** The number of shape tokens before the first `}` (all of them when
      there is none). */
  function ShapeRank(toks: seq<string>): (n: nat)
    ensures n <= |toks|
    ensures n == |toks| || toks[n] == "}"
  {
    if toks == [] || toks[0] == "}" then 0 else 1 + ShapeRank(toks[1..])
  }

  /** No token before the shape's rank is `}`: the loop breaks at the first. */
  lemma {:induction false} ShapeRankFirstBrace(toks: seq<string>)
    ensures forall k :: 0 <= k < ShapeRank(toks) ==> toks[k] != "}"
    decreases |toks|
  {
    if toks != [] && toks[0] != "}" {
      ShapeRankFirstBrace(toks[1..]);
      assert forall k :: 1 <= k < ShapeRank(toks) ==> toks[k] == toks[1..][k - 1];
    }
  }

  /** The shape tokens up to `}` (or the end), each stripped and parsed as a
      `usize`; None when one of them does not parse. A parsed shape has at
      most one size per token, each within `usize` (`ParseShapeAt`: exactly
      one per token before `}`). */
  function ParseShape(toks: seq<string>): (r: Option<seq<nat>>)
    ensures r.Some? ==> |r.value| <= |toks|
    ensures r.Some? ==> forall k :: 0 <= k < |r.value| ==> r.value[k] <= UsizeMax
  {
    if toks == [] || toks[0] == "}" then Some([])
    else match ParseUsize(StripShapeToken(toks[0]))
      case None => None
      case Some(d) => Prepend([d], ParseShape(toks[1..]))
  }

  /** The shape parses exactly when every token before `}` strips to a
      `usize`, and then it has one size per such token, size k being the
      parse of token k. */
  lemma ParseShapeAt(toks: seq<string>)
    ensures ParseShape(toks).Some? <==>
      forall k :: 0 <= k < ShapeRank(toks) ==> ParseUsize(StripShapeToken(toks[k])).Some?
    ensures ParseShape(toks).Some? ==> |ParseShape(toks).value| == ShapeRank(toks)
    ensures ParseShape(toks).Some? ==>
      forall k :: 0 <= k < ShapeRank(toks) ==> ParseUsize(StripShapeToken(toks[k])) == Some(ParseShape(toks).value[k])
  {
    if ParseShape(toks).Some? {
      ParsedSizes(toks);
    } else {
      FailedSize(toks);
    }
  }

  /** A parsed shape holds the parse of each token before `}`. */
  lemma {:induction false} ParsedSizes(toks: seq<string>)
    requires ParseShape(toks).Some?
    ensures |ParseShape(toks).value| == ShapeRank(toks)
    ensures forall k :: 0 <= k < ShapeRank(toks) ==> ParseUsize(StripShapeToken(toks[k])) == Some(ParseShape(toks).value[k])
    decreases |toks|
  {
    if toks != [] && toks[0] != "}" {
      var rest := toks[1..];
      var d := ParseUsize(StripShapeToken(toks[0]));
      assert d.Some? && ParseShape(rest).Some?;
      ParsedSizes(rest);
      var v := ParseShape(toks).value;
      var w := ParseShape(rest).value;
      assert v == [d.value] + w;
      forall k | 0 <= k < ShapeRank(toks)
        ensures ParseUsize(StripShapeToken(toks[k])) == Some(v[k])
      {
        if k > 0 {
          assert toks[k] == rest[k - 1] && v[k] == w[k - 1];
        }
      }
    }
  }

  /** A shape fails to parse only at a token before `}` that does not strip
      to a `usize`. */
  lemma {:induction false} FailedSize(toks: seq<string>)
    requires ParseShape(toks).None?
    ensures exists k :: 0 <= k < ShapeRank(toks) && ParseUsize(StripShapeToken(toks[k])).None?
    decreases |toks|
  {
    var rest := toks[1..];
    if ParseUsize(StripShapeToken(toks[0])).None? {
      assert 0 < ShapeRank(toks);
    } else {
      assert ParseShape(rest).None?;
      FailedSize(rest);
      var j :| 0 <= j < ShapeRank(rest) && ParseUsize(StripShapeToken(rest[j])).None?;
      assert toks[j + 1] == rest[j];
      assert j + 1 < ShapeRank(toks);
    }
  }

  /** The reversal of a sequence. */
  function Reversed<T>(s: seq<T>): (r: seq<T>)
    ensures |r| == |s|
    ensures forall i :: 0 <= i < |s| ==> r[i] == s[|s| - 1 - i]
  {
    if s == [] then [] else Reversed(s[1..]) + [s[0]]
  }

  /** `Vec::reverse`: swaps the ends inwards. */
  method ReverseInPlace(a: array<nat>)
    modifies a
    ensures a[..] == Reversed(old(a[..]))
  {
    var i, j := 0, a.Length - 1;
    while i < j
      invariant 0 <= i <= a.Length && j == a.Length - 1 - i
      invariant forall k :: 0 <= k < i ==> a[k] == old(a[a.Length - 1 - k]) && a[a.Length - 1 - k] == old(a[k])
      invariant forall k :: i <= k <= j ==> a[k] == old(a[k])
    {
      a[i], a[j] := a[j], a[i];
      i, j := i + 1, j - 1;
    }
  }

  /** Reversing twice gives the sequence back. */
  lemma ReversedReversed<T>(s: seq<T>)
    ensures Reversed(Reversed(s)) == s
  {
    var r := Reversed(s);
    assert forall i :: 0 <= i < |s| ==> Reversed(r)[i] == r[|s| - 1 - i] == s[i];
  }

  /** Reversing a shape keeps its number of elements. */
  lemma {:induction false} ReversedFlatLen(size: seq<nat>)
    ensures FlatLen(Reversed(size)) == FlatLen(size)
  {
    if size != [] {
      var r := Reversed(size);
      assert r[..|r| - 1] == Reversed(size[1..]);
      ReversedFlatLen(size[1..]);
      FlatLenFront(size);
    }
  }

  /** The header fields read from the whitespace tokens of the header text. */
  function HeaderFromTokens(toks: seq<string>, dataOffset: nat): (r: Outcome<NpyHeader>)
    ensures r != Err
    ensures r.Ok? ==> r.value.dataOffset == dataOffset
  {
    if |toks| < 5 then Abort
    else if toks[0] != "{'descr':" || toks[2] != "'fortran_order':" || toks[4] != "'shape':" then Abort
    else match ParseDtypeDesc(toks[1])
      case None => Abort
      case Some(desc) =>
        match ParseBool(AsciiLower(Remove(toks[3], ',')))
        case None => Abort
        case Some(colMajor) =>
          match ParseShape(toks[5..])
          case None => Abort
          case Some(shape) =>
            Ok(NpyHeader(desc, colMajor, if colMajor then shape else Reversed(shape), dataOffset))
  }

  /** The tokens are accepted exactly when the three keys stand in place and
      the descriptor, the flag and the shape all parse; the accepted shape
      has the parsed rank and number of elements, in either order. */
  lemma HeaderFromTokensOk(toks: seq<string>, dataOffset: nat)
    ensures HeaderFromTokens(toks, dataOffset).Ok? <==>
      |toks| >= 5 && toks[0] == "{'descr':" && toks[2] == "'fortran_order':" && toks[4] == "'shape':" &&
      ParseDtypeDesc(toks[1]).Some? && ParseBool(AsciiLower(Remove(toks[3], ','))).Some? &&
      ParseShape(toks[5..]).Some?
    ensures HeaderFromTokens(toks, dataOffset).Ok? ==>
      HeaderFromTokens(toks, dataOffset).value.dtypeDesc == ParseDtypeDesc(toks[1]).value &&
      |HeaderFromTokens(toks, dataOffset).value.ndSize| == |ParseShape(toks[5..]).value| &&
      FlatLen(HeaderFromTokens(toks, dataOffset).value.ndSize) == FlatLen(ParseShape(toks[5..]).value)
  {
    if HeaderFromTokens(toks, dataOffset).Ok? {
      ReversedFlatLen(ParseShape(toks[5..]).value);
    }
  }

  /** What `read_npy_header` makes of a stream. `Err` exactly for a wrong
      magic or a version other than (1, 0); every later failure, and a
      stream too short for the magic or the version, aborts. */
  function HeaderOf(input: seq<byte>): (r: Outcome<NpyHeader>)
    ensures |input| < 6 ==> r == Abort
    ensures r == Err <==>
      (|input| >= 6 && input[..6] != NpyMagic) ||
      (|input| >= 8 && input[..6] == NpyMagic && (input[6] != 1 || input[7] != 0))
    ensures r.Ok? ==>
      |input| >= 10 && input[..6] == NpyMagic && input[6] == 1 && input[7] == 0 &&
      r.value.dataOffset == 10 + LeValue(input[8..10]) &&
      r.value.dataOffset % 64 == 0 && r.value.dataOffset <= |input|
  {
    if |input| < 6 then Abort
    else if input[..6] != NpyMagic then Err
    else if |input| < 8 then Abort
    else if input[6] != 1 || input[7] != 0 then Err
    else if |input| < 10 then Abort
    else
      var h := LeValue(input[8..10]);
      if (10 + h) % 64 != 0 || |input| < 10 + h then Abort
      else match Utf8Decode(input[10..10 + h])
        case None => Abort
        case Some(text) =>
          var r := HeaderFromTokens(SplitWhitespace(text), 10 + h);
          assert r.Ok? ==> r.value.dataOffset == 10 + h;
          r
  }

  /** An accepted header: a header text that decodes, whose tokens are
      accepted; `TokensOkShape` says what that means for its fields. */
  lemma HeaderOkShape(input: seq<byte>)
    requires HeaderOf(input).Ok?
    ensures |input| >= 10 && 10 + LeValue(input[8..10]) <= |input|
    ensures Utf8Decode(input[10..10 + LeValue(input[8..10])]).Some?
    ensures HeaderOf(input) ==
      HeaderFromTokens(SplitWhitespace(Utf8Decode(input[10..10 + LeValue(input[8..10])]).value), 10 + LeValue(input[8..10]))
  {
    var h := LeValue(input[8..10]);
    assert input[..6] == NpyMagic && input[6] == 1 && input[7] == 0;
    assert (10 + h) % 64 == 0 && 10 + h <= |input|;
    assert Utf8Decode(input[10..10 + h]).Some?;
    var text := Utf8Decode(input[10..10 + h]).value;
    var r := HeaderFromTokens(SplitWhitespace(text), 10 + h);
    assert HeaderOf(input) == r;
  }

  /** Accepted tokens: the three keys in place, a descriptor from the table,
      a boolean layout flag, a parsed shape that is reversed exactly when the
      data is row-major. */
  lemma TokensOkShape(toks: seq<string>, dataOffset: nat)
    requires HeaderFromTokens(toks, dataOffset).Ok?
    ensures var hdr := HeaderFromTokens(toks, dataOffset).value;
      |toks| >= 5 && toks[0] == "{'descr':" && toks[2] == "'fortran_order':" && toks[4] == "'shape':" &&
      ParseDtypeDesc(toks[1]) == Some(hdr.dtypeDesc) &&
      ParseBool(AsciiLower(Remove(toks[3], ','))) == Some(hdr.colMajor) &&
      ParseShape(toks[5..]).Some? &&
      hdr.ndSize == (if hdr.colMajor then ParseShape(toks[5..]).value else Reversed(ParseShape(toks[5..]).value))
  {
  }

  /** An empty shape tuple `()` strips to the empty string, which does not
      parse: the reader aborts on a zero-dimensional header. */
  lemma EmptyShapeAborts()
    ensures ParseShape(["(),", "}"]) == None
  {
    assert StripShapeToken("(),") == "";
  }

  /** `read_npy_header`, step by step over the stream. */
  method ReadNpyHeader(input: seq<byte>) returns (res: Outcome<NpyHeader>)
    ensures res == HeaderOf(input)
  {
    var pos := 0;
    var magicnum := ZeroedVec(6);
    var read := ReadExact(input, pos, |magicnum|);
    if read.None? {
      return Abort;
    }
    magicnum, pos := read.value, pos + |magicnum|;
    if magicnum != NpyMagic {
      return Err;
    }
    var major := ReadExact(input, pos, 1);
    if major.None? {
      return Abort;
    }
    pos := pos + 1;
    var minor := ReadExact(input, pos, 1);
    if minor.None? {
      return Abort;
    }
    pos := pos + 1;
    if major.value[0] != 1 || minor.value[0] != 0 {
      return Err;
    }
    res := ReadHeaderText(input);
  }

  /** The part of `read_npy_header` after the magic and version 1.0: the
      16-bit header length, the alignment check, the text and its tokens. */
  method ReadHeaderText(input: seq<byte>) returns (res: Outcome<NpyHeader>)
    requires |input| >= 8 && input[..6] == NpyMagic && input[6] == 1 && input[7] == 0
    ensures res == HeaderOf(input)
  {
    var pos := 8;
    var lenBytes := ReadExact(input, pos, 2);
    if lenBytes.None? {
      return Abort;
    }
    pos := pos + 2;
    var headerLen := LeValue(lenBytes.value);
    var dataOffset := 10 + headerLen;
    if dataOffset % 64 != 0 {
      return Abort;
    }
    var header := ZeroedVec(headerLen);
    var read := ReadExact(input, pos, |header|);
    if read.None? {
      return Abort;
    }
    header, pos := read.value, pos + |header|;
    var text := Utf8Decode(header);
    if text.None? {
      return Abort;
    }
    var toks := SplitWhitespace(text.value);
    res := ReadHeaderTokens(toks, dataOffset);
  }

  /** The part of `read_npy_header` after the header text is split: the
      key tokens are asserted, the descriptor and the layout flag parsed and
      the shape read token by token up to `}`. */
  method ReadHeaderTokens(toks: seq<string>, dataOffset: nat) returns (res: Outcome<NpyHeader>)
    ensures res == HeaderFromTokens(toks, dataOffset)
  {
    if |toks| < 5 || toks[0] != "{'descr':" || toks[2] != "'fortran_order':" || toks[4] != "'shape':" {
      return Abort;
    }
    var desc := ParseDtypeDesc(toks[1]);
    if desc.None? {
      return Abort;
    }
    var colMajor := ParseBool(AsciiLower(Remove(toks[3], ',')));
    if colMajor.None? {
      return Abort;
    }
    var shape := ReadShapeTokens(toks[5..]);
    if shape.None? {
      return Abort;
    }
    var ndSize := shape.value;
    if !colMajor.value {
      var buf := new nat[|ndSize|](k requires 0 <= k < |ndSize| => ndSize[k]);
      assert buf[..] == ndSize;
      ReverseInPlace(buf);
      ndSize := buf[..];
    }
    res := Ok(NpyHeader(desc.value, colMajor.value, ndSize, dataOffset));
  }

  /** The shape loop: sizes are pushed token by token until `}` or the end;
      a token that does not parse as a `usize` panics (None). */
  method ReadShapeTokens(toks: seq<string>) returns (shape: Option<seq<nat>>)
    ensures shape == ParseShape(toks)
  {
    var ndSize: seq<nat> := [];
    var i := 0;
    ShapeStart(toks);
    while i < |toks|
      invariant 0 <= i <= |toks|
      invariant ParseShape(toks) == Prepend(ndSize, ParseShape(toks[i..]))
    {
      if toks[i] == "}" {
        break;
      }
      var d := ParseUsize(StripShapeToken(toks[i]));
      ShapeTokenStep(toks, i, ndSize);
      if d.None? {
        return None;
      }
      ndSize := ndSize + [d.value];
      i := i + 1;
    }
    ShapeEnd(toks, i, ndSize);
    return Some(ndSize);
  }

  /** Before the loop: no sizes, all tokens to go. */
  lemma ShapeStart(toks: seq<string>)
    ensures ParseShape(toks) == Prepend([], ParseShape(toks[0..]))
  {
    assert toks[0..] == toks;
    if ParseShape(toks).Some? {
      assert [] + ParseShape(toks).value == ParseShape(toks).value;
    }
  }

  /** One shape token that is not `}`: its size moves to the sizes read, or
      the parse fails. */
  lemma ShapeTokenStep(toks: seq<string>, i: nat, front: seq<nat>)
    requires i < |toks| && toks[i] != "}"
    ensures ParseUsize(StripShapeToken(toks[i])).None? ==> Prepend(front, ParseShape(toks[i..])) == None
    ensures ParseUsize(StripShapeToken(toks[i])).Some? ==>
      Prepend(front, ParseShape(toks[i..])) ==
      Prepend(front + [ParseUsize(StripShapeToken(toks[i])).value], ParseShape(toks[i + 1..]))
  {
    var t := toks[i..];
    assert t[0] == toks[i] && t[1..] == toks[i + 1..];
    var d := ParseUsize(StripShapeToken(toks[i]));
    var rest := ParseShape(toks[i + 1..]);
    assert ParseShape(t) == (if d.None? then None else Prepend([d.value], rest));
    if d.Some? && rest.Some? {
      assert front + ([d.value] + rest.value) == (front + [d.value]) + rest.value;
    }
  }

  /** At `}` or past the last token the sizes read are the shape. */
  lemma ShapeEnd(toks: seq<string>, i: nat, front: seq<nat>)
    requires i <= |toks| && (i == |toks| || toks[i] == "}")
    ensures Prepend(front, ParseShape(toks[i..])) == Some(front)
  {
    assert ParseShape(toks[i..]) == Some([]);
    assert front + [] == front;
  }

  /** What `deserialize` makes of a stream holding an array of rank `rank`
      and element type `t`: the header, then `FlatLen(size) * SizeOf(t)`
      data bytes. Every failure panics, so the result is never `Err`. */
  function DeserializeOutcome(input: seq<byte>, rank: nat, t: Elem, native: NpyEndianness): (r: Outcome<Index>)
    ensures r != Err
    ensures r.Ok? <==>
      HeaderOf(input).Ok? && Matches(HeaderOf(input).value.dtypeDesc, t, native) &&
      |HeaderOf(input).value.ndSize| == rank &&
      HeaderOf(input).value.dataOffset + FlatLen(HeaderOf(input).value.ndSize) * SizeOf(t) <= |input|
    ensures r.Ok? ==> r.value == HeaderOf(input).value.ndSize
  {
    match HeaderOf(input)
    case Err => Abort
    case Abort => Abort
    case Ok(hdr) =>
      if !Matches(hdr.dtypeDesc, t, native) || |hdr.ndSize| != rank then Abort
      else if ReadExact(input, hdr.dataOffset, FlatLen(hdr.ndSize) * SizeOf(t)).None? then Abort
      else Ok(hdr.ndSize)
  }

  /** `MemArray::deserialize`: reads the header (a header error panics),
      asserts the descriptor matches the element type, converts the size to
      the array's rank (which must agree), allocates a zeroed packed array
      of that size and requires its `phsz` data bytes to be in the stream
      (a short read panics). The bytes are not copied into the elements,
      so the array stays zeroed. */
  method Deserialize<T(0)>(input: seq<byte>, rank: nat, t: Elem, native: NpyEndianness, zero: T)
    returns (res: Outcome<MemArray<T>>)
    ensures res.Ok? <==> DeserializeOutcome(input, rank, t, native).Ok?
    ensures !res.Err?
    ensures res.Ok? ==>
      var a := res.value;
      a.size == DeserializeOutcome(input, rank, t, native).value &&
      a.offset == Zero(rank) && a.stride == PackedStride(a.size) &&
      fresh(a.mem) && a.mem.Valid() && a.mem.Live() && a.mem.len == FlatLen(a.size) &&
      a.mem.phsz == FlatLen(a.size) * SizeOf(t) && a.IsPacked()
  {
    var header := ReadNpyHeader(input);
    if !header.Ok? {
      return Abort;
    }
    var hdr := header.value;
    if !Matches(hdr.dtypeDesc, t, native) {
      return Abort;
    }
    if |hdr.ndSize| != rank {
      return Abort;
    }
    var arr := Zeros(hdr.ndSize, SizeOf(t), zero);
    var data := ReadExact(input, hdr.dataOffset, arr.mem.phsz);
    if data.None? {
      return Abort;
    }
    res := Ok(arr);
  }
}

/** A reference writer of `.npy` version 1.0 headers, in the layout NumPy
    writes them, against which the reader is proved. NpyWriter is not part
    of the crate, whose header writer is left unimplemented. */
module NpyWriter {
  import opened Outcomes
  import opened Bytes
  import opened Text
  import opened ArrayIdx
  import opened Npy

  /** The layout flag as NumPy prints it. */
  function BoolWord(colMajor: bool): string
  {
    if colMajor then "True," else "False,"
  }

  /** The shape tuple's words after the first: each size followed by `,`,
      the last by `),`. */
  function TailWords(dims: seq<nat>): seq<string>
    requires |dims| >= 1
  {
    if |dims| == 1 then [Decimal(dims[0]) + "),"]
    else [Decimal(dims[0]) + ","] + TailWords(dims[1..])
  }

  /** The shape tuple's words: `(4,),` for one axis, `(4,` `3),` for two. */
  function ShapeWords(dims: seq<nat>): seq<string>
    requires |dims| >= 1
  {
    if |dims| == 1 then ["(" + Decimal(dims[0]) + ",),"]
    else ["(" + Decimal(dims[0]) + ","] + TailWords(dims[1..])
  }

  /** The whitespace-separated words of the header dictionary. */
  function HeaderWords(t: Elem, colMajor: bool, dims: seq<nat>): seq<string>
    requires |dims| >= 1
  {
    ["{'descr':", DescrToken(t), "'fortran_order':", BoolWord(colMajor), "'shape':"]
      + ShapeWords(dims) + ["}"]
  }

  /** Spaces and a final newline that bring the data offset to a multiple
      of 64. */
  function Padding(unpadded: nat): (p: string)
    ensures (10 + unpadded + |p|) % 64 == 0 && 1 <= |p| <= 64
    ensures forall i :: 0 <= i < |p| ==> IsWhitespace(p[i])
  {
    seq((64 - (10 + unpadded + 1) % 64) % 64, _ => ' ') + "\n"
  }

  /** The header text. */
  function HeaderText(t: Elem, colMajor: bool, dims: seq<nat>): string
    requires |dims| >= 1
  {
    var words := Join(HeaderWords(t, colMajor, dims));
    words + Padding(|words|)
  }

  /** The encoded header: magic, version 1.0, the 16-bit length of the text,
      the text. The header text must fit the 16-bit length field. */
  function EncodeHeader(t: Elem, colMajor: bool, dims: seq<nat>): (b: seq<byte>)
    requires |dims| >= 1
    requires |Join(HeaderWords(t, colMajor, dims))| < 65472
    ensures |b| % 64 == 0
  {
    var text := HeaderText(t, colMajor, dims);
    HeaderTextAscii(t, colMajor, dims);
    NpyMagic + [1, 0] + LeBytes(|text|, 2) + Ascii(text)
  }

  /** A character a shape word is made of that is not a digit. */
  predicate IsPunct(c: char)
  {
    c == '(' || c == ')' || c == ','
  }

  /** Removing the tuple punctuation distributes over concatenation. */
  lemma StripAppend(a: string, b: string)
    ensures StripShapeToken(a + b) == StripShapeToken(a) + StripShapeToken(b)
  {
    RemoveAppend(a, b, '(');
    RemoveAppend(Remove(a, '('), Remove(b, '('), ')');
    RemoveAppend(Remove(Remove(a, '('), ')'), Remove(Remove(b, '('), ')'), ',');
  }

  /** Removing the tuple punctuation leaves decimal digits as they are. */
  lemma StripDigits(s: string)
    requires AllDigits(s)
    ensures StripShapeToken(s) == s
  {
    RemoveAbsent(s, '(');
    RemoveAbsent(s, ')');
    RemoveAbsent(s, ',');
  }

  /** A size between tuple punctuation strips to its digits. */
  lemma StripWord(pre: string, d: nat, post: string)
    requires StripShapeToken(pre) == [] && StripShapeToken(post) == []
    ensures StripShapeToken(pre + Decimal(d) + post) == Decimal(d)
  {
    StripAppend(pre + Decimal(d), post);
    StripAppend(pre, Decimal(d));
    StripDigits(Decimal(d));
  }

  /** A word holding a size reads back as that size. */
  lemma SizeWord(pre: string, d: nat, post: string)
    requires d <= UsizeMax
    requires StripShapeToken(pre) == [] && StripShapeToken(post) == []
    ensures ParseUsize(StripShapeToken(pre + Decimal(d) + post)) == Some(d)
  {
    StripWord(pre, d, post);
    ParseUsizeOfDecimal(d);
  }

  /** A digit string or one ending in a comma is not the closing brace. */
  lemma NotBrace(pre: string, d: nat, post: string)
    requires |post| > 0
    ensures pre + Decimal(d) + post != "}"
  {
    assert |pre + Decimal(d) + post| >= 2;
  }

  /** A size followed by tuple punctuation reads back as that size and is
      not the closing brace. */
  lemma DigitsWord(d: nat, post: string)
    requires d <= UsizeMax && |post| > 0 && StripShapeToken(post) == []
    ensures ParseUsize(StripShapeToken(Decimal(d) + post)) == Some(d)
    ensures Decimal(d) + post != "}"
  {
    assert |Decimal(d) + post| >= 2;
    StripAppend(Decimal(d), post);
    StripDigits(Decimal(d));
    assert StripShapeToken(Decimal(d)) + [] == Decimal(d);
    ParseUsizeOfDecimal(d);
  }

  /** A word holding a size in front of words that read back as the other
      sizes. */
  lemma SizeWordCons(w: string, d: nat, rest: seq<string>, tail: seq<nat>)
    requires w != "}" && ParseUsize(StripShapeToken(w)) == Some(d)
    requires ParseShape(rest) == Some(tail)
    ensures ParseShape([w] + rest) == Some([d] + tail)
  {
    assert ([w] + rest)[1..] == rest;
  }

  /** The shape words, followed by the closing brace, read back as the
      sizes. */
  lemma {:induction false} ParseTailWords(dims: seq<nat>)
    requires |dims| >= 1
    requires forall i :: 0 <= i < |dims| ==> dims[i] <= UsizeMax
    ensures ParseShape(TailWords(dims) + ["}"]) == Some(dims)
  {
    if |dims| == 1 {
      ParseLastWord(dims);
    } else {
      ParseTailWords(dims[1..]);
      ParseTailStep(dims);
    }
  }

  /** The last size word and the closing brace. */
  lemma ParseLastWord(dims: seq<nat>)
    requires |dims| == 1 && dims[0] <= UsizeMax
    ensures ParseShape(TailWords(dims) + ["}"]) == Some(dims)
  {
    var d := dims[0];
    assert [d] + [] == dims;
    assert StripShapeToken("),") == [];
    DigitsWord(d, "),");
    assert ParseShape(["}"]) == Some([]);
    SizeWordCons(Decimal(d) + "),", d, ["}"], []);
    assert TailWords(dims) + ["}"] == [Decimal(d) + "),"] + ["}"];
  }

  /** One size word in front of the words of the later sizes. */
  lemma ParseTailStep(dims: seq<nat>)
    requires |dims| >= 2 && dims[0] <= UsizeMax
    requires ParseShape(TailWords(dims[1..]) + ["}"]) == Some(dims[1..])
    ensures ParseShape(TailWords(dims) + ["}"]) == Some(dims)
  {
    var d := dims[0];
    assert StripShapeToken(",") == [];
    DigitsWord(d, ",");
    TailWordsFront(dims);
    SizeWordCons(Decimal(d) + ",", d, TailWords(dims[1..]) + ["}"], dims[1..]);
  }

  /** The first size word, then the words of the later sizes. */
  lemma TailWordsFront(dims: seq<nat>)
    requires |dims| >= 2
    ensures TailWords(dims) + ["}"] == [Decimal(dims[0]) + ","] + (TailWords(dims[1..]) + ["}"])
    ensures [dims[0]] + dims[1..] == dims
  {
    var a, b := [Decimal(dims[0]) + ","], TailWords(dims[1..]);
    assert TailWords(dims) == a + b;
    AppendAssoc(a, b, ["}"]);
  }

  /** The shape tuple, followed by the closing brace, reads back as the
      sizes. */
  lemma ParseShapeWords(dims: seq<nat>)
    requires |dims| >= 1
    requires forall i :: 0 <= i < |dims| ==> dims[i] <= UsizeMax
    ensures ParseShape(ShapeWords(dims) + ["}"]) == Some(dims)
  {
    if |dims| == 1 {
      ParseOneAxis(dims);
    } else {
      ParseTailWords(dims[1..]);
      ParseFirstAxis(dims);
    }
  }

  /** The tuple of one size, `(4,),`, and the closing brace. */
  lemma ParseOneAxis(dims: seq<nat>)
    requires |dims| == 1 && dims[0] <= UsizeMax
    ensures ParseShape(ShapeWords(dims) + ["}"]) == Some(dims)
  {
    var d := dims[0];
    assert [d] + [] == dims;
    var w := "(" + Decimal(d) + ",),";
    assert StripShapeToken("(") == [] && StripShapeToken(",),") == [];
    NotBrace("(", d, ",),");
    SizeWord("(", d, ",),");
    assert ParseShape(["}"]) == Some([]);
    SizeWordCons(w, d, ["}"], []);
    assert ShapeWords(dims) + ["}"] == [w] + ["}"];
  }

  /** The opening word `(4,` is no brace and strips to its size. */
  lemma OpeningWord(d: nat)
    requires d <= UsizeMax
    ensures "(" + Decimal(d) + "," != "}"
    ensures ParseUsize(StripShapeToken("(" + Decimal(d) + ",")) == Some(d)
  {
    assert StripShapeToken("(") == [] && StripShapeToken(",") == [];
    NotBrace("(", d, ",");
    SizeWord("(", d, ",");
  }

  /** The opening word `(4,` in front of the words of the later sizes. */
  lemma ParseFirstAxis(dims: seq<nat>)
    requires |dims| >= 2 && dims[0] <= UsizeMax
    requires ParseShape(TailWords(dims[1..]) + ["}"]) == Some(dims[1..])
    ensures ParseShape(ShapeWords(dims) + ["}"]) == Some(dims)
  {
    var d := dims[0];
    var w := "(" + Decimal(d) + ",";
    var rest := TailWords(dims[1..]) + ["}"];
    OpeningWord(d);
    SizeWordCons(w, d, rest, dims[1..]);
    assert ShapeWords(dims) + ["}"] == [w] + rest by {
      assert ShapeWords(dims) == [w] + TailWords(dims[1..]);
      AppendAssoc([w], TailWords(dims[1..]), ["}"]);
    }
    assert [d] + dims[1..] == dims;
  }

  /** ASCII text without whitespace. */
  predicate Plain(s: string)
  {
    forall i :: 0 <= i < |s| ==> s[i] as int < 128 && !IsWhitespace(s[i])
  }

  predicate AsciiText(s: string)
  {
    forall i :: 0 <= i < |s| ==> s[i] as int < 128
  }

  lemma PlainAppend(a: string, b: string)
    requires Plain(a) && Plain(b)
    ensures Plain(a + b)
  {
    assert forall i :: 0 <= i < |a + b| ==> (a + b)[i] == if i < |a| then a[i] else b[i - |a|];
  }

  lemma AsciiAppend(a: string, b: string)
    requires AsciiText(a) && AsciiText(b)
    ensures AsciiText(a + b)
  {
    assert forall i :: 0 <= i < |a + b| ==> (a + b)[i] == if i < |a| then a[i] else b[i - |a|];
  }

  lemma PlainDecimal(d: nat)
    ensures Plain(Decimal(d))
  {
    var s := Decimal(d);
    assert forall i :: 0 <= i < |s| ==> IsDigit(s[i]);
  }

  /** A size word: punctuation around the digits of the size. */
  lemma PlainSizeWord(pre: string, d: nat, post: string)
    requires Plain(pre) && Plain(post)
    ensures Plain(pre + Decimal(d) + post)
  {
    PlainDecimal(d);
    PlainAppend(pre, Decimal(d));
    PlainAppend(pre + Decimal(d), post);
  }

  lemma {:induction false} PlainTailWords(dims: seq<nat>)
    requires |dims| >= 1
    ensures forall i :: 0 <= i < |TailWords(dims)| ==> Plain(TailWords(dims)[i]) && |TailWords(dims)[i]| > 0
  {
    if |dims| == 1 {
      PlainSizeWord("", dims[0], "),");
      assert "" + Decimal(dims[0]) + ")," == Decimal(dims[0]) + "),";
    } else {
      PlainSizeWord("", dims[0], ",");
      assert "" + Decimal(dims[0]) + "," == Decimal(dims[0]) + ",";
      PlainTailWords(dims[1..]);
    }
  }

  /** The fixed words of the header. */
  lemma PlainKeys(t: Elem, colMajor: bool)
    ensures Plain("{'descr':") && Plain("'fortran_order':") && Plain("'shape':") && Plain("}")
    ensures Plain(DescrToken(t)) && Plain(BoolWord(colMajor))
  {
    PlainKey("{'descr':");
    PlainKey("'fortran_order':");
    PlainKey("'shape':");
    PlainKey("}");
    PlainKey(DescrToken(t));
    PlainKey(BoolWord(colMajor));
  }

  /** A word without spaces from printable ASCII. */
  lemma PlainKey(s: string)
    requires forall i :: 0 <= i < |s| ==> 33 <= s[i] as int < 127
    ensures Plain(s)
  {
  }

  /** Every header word is a non-empty run of ASCII non-whitespace. */
  lemma PlainHeaderWords(t: Elem, colMajor: bool, dims: seq<nat>)
    requires |dims| >= 1
    ensures forall i :: 0 <= i < |HeaderWords(t, colMajor, dims)| ==>
      Plain(HeaderWords(t, colMajor, dims)[i]) && IsWord(HeaderWords(t, colMajor, dims)[i])
  {
    var sw := ShapeWords(dims);
    if |dims| == 1 {
      PlainSizeWord("(", dims[0], ",),");
    } else {
      PlainSizeWord("(", dims[0], ",");
      PlainTailWords(dims[1..]);
    }
    assert PlainWords(sw);
    PlainKeys(t, colMajor);
    var keys := ["{'descr':", DescrToken(t), "'fortran_order':", BoolWord(colMajor), "'shape':"];
    assert PlainWords(keys);
    PlainWordsAppend(keys, sw);
    assert PlainWords(["}"]);
    PlainWordsAppend(keys + sw, ["}"]);
  }

  /** Every word is non-empty and plain. */
  predicate PlainWords(ws: seq<string>)
  {
    forall i :: 0 <= i < |ws| ==> Plain(ws[i]) && |ws[i]| > 0
  }

  /** Plain words followed by plain words. */
  lemma PlainWordsAppend(a: seq<string>, b: seq<string>)
    requires PlainWords(a) && PlainWords(b)
    ensures PlainWords(a + b)
  {
    forall i | 0 <= i < |a + b|
      ensures Plain((a + b)[i]) && |(a + b)[i]| > 0
    {
      if i >= |a| {
        assert (a + b)[i] == b[i - |a|];
      }
    }
  }

  /** Words of ASCII text joined by spaces are ASCII text. */
  lemma {:induction false} JoinAscii(ws: seq<string>)
    requires forall i :: 0 <= i < |ws| ==> Plain(ws[i])
    ensures AsciiText(Join(ws))
  {
    if ws != [] {
      JoinAscii(ws[1..]);
      assert AsciiText(ws[0]);
      AsciiAppend(ws[0], [' ']);
      AsciiAppend(ws[0] + [' '], Join(ws[1..]));
    }
  }

  /** Every character of the header text is ASCII. */
  lemma HeaderTextAscii(t: Elem, colMajor: bool, dims: seq<nat>)
    requires |dims| >= 1
    ensures AsciiText(HeaderText(t, colMajor, dims))
  {
    var words := Join(HeaderWords(t, colMajor, dims));
    PlainHeaderWords(t, colMajor, dims);
    JoinAscii(HeaderWords(t, colMajor, dims));
    var p := Padding(|words|);
    assert AsciiText(p);
    AsciiAppend(words, p);
  }

  /** The layout flag reads back as itself. */
  lemma BoolWordParses(colMajor: bool)
    ensures ParseBool(AsciiLower(Remove(BoolWord(colMajor), ','))) == Some(colMajor)
  {
    if colMajor {
      TrueWord();
    } else {
      FalseWord();
    }
  }

  /** `True,` without its comma, lowercased. */
  lemma TrueWord()
    ensures AsciiLower(Remove("True,", ',')) == "true"
  {
    DropComma("True");
    var r := AsciiLower("True");
    assert r[0] == 't' && r[1] == 'r' && r[2] == 'u' && r[3] == 'e';
    assert r == "true";
  }

  /** `False,` without its comma, lowercased. */
  lemma FalseWord()
    ensures AsciiLower(Remove("False,", ',')) == "false"
  {
    DropComma("False");
    var r := AsciiLower("False");
    assert r[0] == 'f' && r[1] == 'a' && r[2] == 'l' && r[3] == 's' && r[4] == 'e';
    assert r == "false";
  }

  /** A word with no comma, followed by one, loses only that comma. */
  lemma DropComma(w: string)
    requires forall i :: 0 <= i < |w| ==> w[i] != ','
    ensures Remove(w + ",", ',') == w
  {
    RemoveAppend(w, ",", ',');
    RemoveAbsent(w, ',');
    assert Remove(",", ',') == [];
  }

  /** The reader reads back what the reference writer wrote: the descriptor
      of the element type (little-endian for the floats), the layout flag,
      the sizes (reversed for row-major data, so that axis 0 varies
      fastest) and the data offset just past the header, whatever data
      follows. */
  lemma EncodeHeaderRoundTrip(t: Elem, colMajor: bool, dims: seq<nat>, data: seq<byte>)
    requires |dims| >= 1
    requires forall i :: 0 <= i < |dims| ==> dims[i] <= UsizeMax
    requires |Join(HeaderWords(t, colMajor, dims))| < 65472
    ensures HeaderOf(EncodeHeader(t, colMajor, dims) + data) ==
      Ok(NpyHeader(ToNpyDtypeDesc(t, Little), colMajor, if colMajor then dims else Reversed(dims),
                   |EncodeHeader(t, colMajor, dims)|))
  {
    var words := HeaderWords(t, colMajor, dims);
    var text := HeaderText(t, colMajor, dims);
    assert text == Join(words) + Padding(|Join(words)|);
    HeaderTextAscii(t, colMajor, dims);
    FramedText(text, data);
    PlainHeaderWords(t, colMajor, dims);
    SplitJoined(words, Padding(|Join(words)|));
    HeaderWordsParse(t, colMajor, dims, |EncodeHeader(t, colMajor, dims)|);
  }

  /** An ASCII text behind the magic, version 1.0 and its 16-bit length,
      ending on a multiple of 64, reads back as the tokens of that text. */
  lemma FramedText(text: string, data: seq<byte>)
    requires AsciiText(text) && |text| < 65536 && (10 + |text|) % 64 == 0
    ensures HeaderOf(NpyMagic + [1, 0] + LeBytes(|text|, 2) + Ascii(text) + data) ==
      HeaderFromTokens(SplitWhitespace(text), 10 + |text|)
  {
    var input := NpyMagic + [1, 0] + LeBytes(|text|, 2) + Ascii(text) + data;
    FramedPrefix(text, data);
    Utf8DecodeAscii(text);
    HeaderOfText(input, text);
  }

  /** The framed text starts with the magic and version 1.0, then the
      text's length, then the text's bytes. */
  lemma FramedPrefix(text: string, data: seq<byte>)
    requires AsciiText(text) && |text| < 65536
    ensures var input := NpyMagic + [1, 0] + LeBytes(|text|, 2) + Ascii(text) + data;
      |input| >= 10 + |text| && input[..6] == NpyMagic && input[6] == 1 && input[7] == 0 &&
      LeValue(input[8..10]) == |text| && input[10..10 + |text|] == Ascii(text)
  {
    var h := |text|;
    var input := NpyMagic + [1, 0] + LeBytes(h, 2) + Ascii(text) + data;
    assert input[..6] == NpyMagic;
    assert input[8..10] == LeBytes(h, 2);
    assert Pow256(2) == 65536;
    LeRoundTrip(h, 2);
    assert input[10..10 + h] == Ascii(text);
  }

  /** A stream with a well-formed prefix and a header text whose data
      offset is aligned is read as the tokens of that text. */
  lemma HeaderOfText(input: seq<byte>, text: string)
    requires |input| >= 10 + |text| && input[..6] == NpyMagic && input[6] == 1 && input[7] == 0
    requires LeValue(input[8..10]) == |text| && (10 + |text|) % 64 == 0
    requires Utf8Decode(input[10..10 + |text|]) == Some(text)
    ensures HeaderOf(input) == HeaderFromTokens(SplitWhitespace(text), 10 + |text|)
  {
  }

  /** The tokens the reference writer emits are read as what it wrote. */
  lemma HeaderWordsParse(t: Elem, colMajor: bool, dims: seq<nat>, off: nat)
    requires |dims| >= 1
    requires forall i :: 0 <= i < |dims| ==> dims[i] <= UsizeMax
    ensures HeaderFromTokens(HeaderWords(t, colMajor, dims), off) ==
      Ok(NpyHeader(ToNpyDtypeDesc(t, Little), colMajor, if colMajor then dims else Reversed(dims), off))
  {
    var desc, flag := DescrToken(t), BoolWord(colMajor);
    var keys := ["{'descr':", desc, "'fortran_order':", flag, "'shape':"];
    var rest := ShapeWords(dims) + ["}"];
    AppendAssoc(keys, ShapeWords(dims), ["}"]);
    ParseShapeWords(dims);
    BoolWordParses(colMajor);
    TokensRead(desc, flag, rest, off, ToNpyDtypeDesc(t, Little), colMajor, dims);
  }

  /** The key tokens in place, followed by a descriptor, a flag and a shape
      that parse, are read as those values. */
  lemma TokensRead(d: string, f: string, rest: seq<string>, off: nat,
                   desc: NpyDtypeDesc, colMajor: bool, shape: seq<nat>)
    requires ParseDtypeDesc(d) == Some(desc)
    requires ParseBool(AsciiLower(Remove(f, ','))) == Some(colMajor)
    requires ParseShape(rest) == Some(shape)
    ensures HeaderFromTokens(["{'descr':", d, "'fortran_order':", f, "'shape':"] + rest, off) ==
      Ok(NpyHeader(desc, colMajor, if colMajor then shape else Reversed(shape), off))
  {
    var toks := ["{'descr':", d, "'fortran_order':", f, "'shape':"] + rest;
    assert toks[5..] == rest;
  }

  /** Deserializing what the reference writer wrote, followed by enough
      data bytes, yields an array of the written size exactly when the
      element type matches the descriptor on this target and the rank is
      the number of sizes; it aborts otherwise. */
  lemma DeserializeRoundTrip(t: Elem, colMajor: bool, dims: seq<nat>, data: seq<byte>,
                             rank: nat, u: Elem, native: NpyEndianness)
    requires |dims| >= 1
    requires forall i :: 0 <= i < |dims| ==> dims[i] <= UsizeMax
    requires |Join(HeaderWords(t, colMajor, dims))| < 65472
    requires |data| >= FlatLen(dims) * SizeOf(u)
    ensures var r := DeserializeOutcome(EncodeHeader(t, colMajor, dims) + data, rank, u, native);
      (r.Ok? <==> t == u && (t == U8 || native == Little) && rank == |dims|) &&
      (r.Ok? ==> r.value == if colMajor then dims else Reversed(dims))
  {
    EncodeHeaderRoundTrip(t, colMajor, dims, data);
    ParsedMatches(DescrToken(t), u, native);
    assert ParseDtypeDesc(DescrToken(t)) == Some(ToNpyDtypeDesc(t, Little));
    if !colMajor {
      ReversedFlatLen(dims);
    }
    if t == u && (t == U8 || native == Little) {
      assert DescrToken(t) == DescrToken(u);
    }
  }
}
