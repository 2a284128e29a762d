/**
 * The classical parts of the Qunicorn backend client: the endpoint string
 * built by the constructor and the conversion of count keys to bit strings
 * (`_ensure_binary`).
 */
module Qunicorn {
  import opened Wrappers
  import opened PyStr

  // ---------------------------------------------------------------------
  // The endpoint
  // ---------------------------------------------------------------------

  /** The port used when the caller gives none. */
  const DefaultPort: int := 9010

  /** `"http://" + api_endpoint + ":" + str(port)`. */
  function EndpointUrl(host: string, port: int): string {
    "http://" + host + ":" + IntToString(port)
  }

  class BackendClient {
    var apiEndpoint: string
    var provider: string
    var device: string
    var port: int
    var token: string

    /** `__init__`: the missing port becomes 9010 and the endpoint is the full URL. */
    constructor (host: string, provider: string, device: string, port: Option<int>, token: string)
      ensures this.provider == provider && this.device == device && this.token == token
      ensures this.port == (if port.None? then DefaultPort else port.value)
      ensures apiEndpoint == EndpointUrl(host, this.port)
    {
      var endpoint := "http://" + host;
      this.provider := provider;
      this.device := device;
      var p := if port.None? then DefaultPort else port.value;
      this.port := p;
      this.token := token;
      this.apiEndpoint := endpoint + ":" + IntToString(p);
    }
  }

  /** Position of the last occurrence of `c` in `s`. */
  function LastIndexOf(s: string, c: char): (r: Option<nat>)
    ensures r.None? <==> c !in s
    ensures r.Some? ==> r.value < |s| && s[r.value] == c && forall j :: r.value < j < |s| ==> s[j] != c
  {
    if s == [] then None
    else if s[|s| - 1] == c then Some(|s| - 1)
    else
      var r := LastIndexOf(s[..|s| - 1], c);
      assert c in s[..|s| - 1] <==> c in s by {
        assert s == s[..|s| - 1] + [s[|s| - 1]];
      }
      r
  }

  /** The host of an endpoint URL: what lies between the scheme and the last colon. */
  function HostOf(url: string): (r: Option<string>)
    ensures r.Some? ==> "http://" <= url
  {
    match LastIndexOf(url, ':')
    case Some(i) => if "http://" <= url && 7 <= i then Some(url[7..i]) else None
    case None => None
  }

  /** The port of an endpoint URL: the text after the last colon, read as `int()` reads it. */
  function PortOf(url: string): Option<int> {
    match LastIndexOf(url, ':')
    case Some(i) => ParseInt(url[i + 1..], 10)
    case None => None
  }

  /** The endpoint determines host and port: the host may itself contain colons, the port text never does. */
  lemma EndpointRoundTrip(host: string, port: int)
    ensures HostOf(EndpointUrl(host, port)) == Some(host)
    ensures PortOf(EndpointUrl(host, port)) == Some(port)
  {
    var pre, p := "http://" + host, IntToString(port);
    NoColonInDecimal(port);
    LastColonAt(pre, p);
    assert EndpointUrl(host, port) == pre + ":" + p;
    assert "http://" <= pre + ":" + p && (pre + ":" + p)[7..|pre|] == host;
    ParseIntOfIntToString(port);
  }

  /** In `pre + ":" + p` with no colon in `p`, the last colon is the one after `pre`. */
  lemma LastColonAt(pre: string, p: string)
    requires ':' !in p
    ensures LastIndexOf(pre + ":" + p, ':') == Some(|pre|)
    ensures (pre + ":" + p)[|pre| + 1..] == p
  {
    ColonThenNone(pre, p);
    LastIndexOfIs(pre + ":" + p, ':', |pre|);
  }

  /** `s[i]` is `c`, and no later character is. */
  predicate IsLast(s: string, c: char, i: nat) {
    i < |s| && s[i] == c && forall j :: i < j < |s| ==> s[j] != c
  }

  lemma ColonThenNone(pre: string, p: string)
    requires ':' !in p
    ensures IsLast(pre + ":" + p, ':', |pre|)
    ensures (pre + ":" + p)[|pre| + 1..] == p
  {
    var head := pre + ":";
    var url := head + p;
    assert |head| == |pre| + 1 && head[|pre|] == ':';
    assert url[|pre|] == ':';
    forall j | |head| <= j < |url| ensures url[j] != ':' {
      var k := j - |head|;
      assert url[j] == p[k];
    }
    assert url[|head|..] == p;
  }

  lemma LastIndexOfIs(s: string, c: char, i: nat)
    requires IsLast(s, c, i)
    ensures LastIndexOf(s, c) == Some(i)
  {
    assert c in s;
  }

  /** `str(port)` is a sign and decimal digits, so it holds no colon. */
  lemma NoColonInDecimal(v: int)
    ensures ':' !in IntToString(v)
  {
    var m: nat := if v < 0 then -v else v;
    var ds := NatToDigits(m, 10);
    assert forall k :: 0 <= k < |ds| ==> ds[k] != ':' by {
      forall k | 0 <= k < |ds| ensures ds[k] != ':' {
        assert IsDigitIn(ds[k], 10);
      }
    }
    if v < 0 {
      var s := IntToString(v);
      assert s == "-" + ds;
      assert forall k :: 0 <= k < |s| ==> s[k] != ':' by {
        forall k | 0 <= k < |s| ensures s[k] != ':' {
          if k > 0 {
            assert s[k] == ds[k - 1];
          }
        }
      }
    }
  }

  // ---------------------------------------------------------------------
  // Count keys
  // ---------------------------------------------------------------------

  /** The ValueErrors `_ensure_binary` raises, directly or through `int(val, 16)`. */
  datatype FormatError =
    | MissingRegisters           // "Parameter registers is required for hex values!"
    | UnknownFormat(name: string) // "Unknown format ..."
    | InvalidLiteral(token: string)

  /** How a register's chunk is padded: as the source does, or to the register's full width. */
  datatype Padding = ThreeZeros | FullWidth

  /** `f"000{v:b}"[-size:]`: the last `size` characters of the binary digits after three zeros. */
  function Chunk(v: int, size: int): (c: string)
    ensures size >= 1 ==> |c| == Min(size, 3 + |BinaryString(v)|)
    ensures size == 0 ==> c == "000" + BinaryString(v)
  {
    TailSlice("000" + BinaryString(v), size)
  }

  /** The register's digits padded with zeros to exactly `size` characters (or cut to the last `size`). */
  function PaddedChunk(v: int, size: int): (c: string)
    ensures |c| == if size <= 0 then 0 else size
  {
    if size <= 0 then [] else TailSlice(Zeros(size) + BinaryString(v), size)
  }

  function ChunkFor(pad: Padding, v: int, size: int): string {
    match pad
    case ThreeZeros => Chunk(v, size)
    case FullWidth => PaddedChunk(v, size)
  }

  /** `int(val, 16)` for each token, in order. */
  function Literals(tokens: seq<string>): (lits: seq<Option<int>>)
    ensures |lits| == |tokens|
  {
    if tokens == [] then [] else [ParseInt(tokens[0], 16)] + Literals(tokens[1..])
  }

  lemma {:induction false} LiteralAt(tokens: seq<string>, i: nat)
    requires i < |tokens|
    ensures Literals(tokens)[i] == ParseInt(tokens[i], 16)
    decreases i
  {
    if i > 0 {
      LiteralAt(tokens[1..], i - 1);
    }
  }

  /**
   * The generator over `zip(register_counts, registers)`: tokens and sizes
   * are paired until either runs out, each token is read as `int(val, 16)`
   * and the first one that is not a literal raises.
   */
  function HexChunks(tokens: seq<string>, sizes: seq<int>, pad: Padding): Result<string, FormatError> {
    ChunksOf(tokens, Literals(tokens), sizes, pad)
  }

  /** The generator, with the reading of each token given as `lits`. */
  function ChunksOf(tokens: seq<string>, lits: seq<Option<int>>, sizes: seq<int>, pad: Padding): (r: Result<string, FormatError>)
    requires |lits| == |tokens|
    ensures r.Ok? <==> FirstNone(lits, Min(|tokens|, |sizes|)) == Min(|tokens|, |sizes|)
    ensures r.Err? ==> r.error == InvalidLiteral(tokens[FirstNone(lits, Min(|tokens|, |sizes|))])
  {
    if tokens == [] || sizes == [] then Ok([])
    else
      match lits[0]
      case None => Err(InvalidLiteral(tokens[0]))
      case Some(v) =>
        assert Min(|tokens[1..]|, |sizes[1..]|) == Min(|tokens|, |sizes|) - 1;
        match ChunksOf(tokens[1..], lits[1..], sizes[1..], pad)
        case Err(e) => Err(e)
        case Ok(s) => Ok(ChunkFor(pad, v, sizes[0]) + s)
  }

  predicate IsHexLiteral(t: string) {
    ParseInt(t, 16).Some?
  }

  /** Index of the first of the first `m` readings that failed, or `m`. */
  function FirstNone(lits: seq<Option<int>>, m: nat): (i: nat)
    requires m <= |lits|
    ensures i <= m && (i < m ==> lits[i].None?)
    ensures forall j :: 0 <= j < i ==> lits[j].Some?
  {
    if m == 0 || lits[0].None? then 0 else 1 + FirstNone(lits[1..], m - 1)
  }

  /**
   * The generator fails exactly when one of the tokens `zip` pairs with a
   * register is not a base-16 literal, and then with the first of them.
   */
  lemma HexChunksErrors(tokens: seq<string>, sizes: seq<int>, pad: Padding)
    ensures var m := Min(|tokens|, |sizes|);
      HexChunks(tokens, sizes, pad).Ok? <==> forall j :: 0 <= j < m ==> IsHexLiteral(tokens[j])
    ensures var r, m := HexChunks(tokens, sizes, pad), Min(|tokens|, |sizes|);
      r.Err? ==> exists i :: (0 <= i < m && r.error == InvalidLiteral(tokens[i]) && !IsHexLiteral(tokens[i])
        && forall j :: 0 <= j < i ==> IsHexLiteral(tokens[j]))
  {
    var lits, m := Literals(tokens), Min(|tokens|, |sizes|);
    var r := ChunksOf(tokens, lits, sizes, pad);
    var i := FirstNone(lits, m);
    forall j | 0 <= j < m ensures lits[j].Some? <==> IsHexLiteral(tokens[j]) {
      LiteralAt(tokens, j);
    }
    if r.Err? {
      assert i < m && r.error == InvalidLiteral(tokens[i]) && !IsHexLiteral(tokens[i]);
    }
  }

  /** `_ensure_binary(result, counts_format, registers)`, with the chunks padded as `pad` says. */
  function Convert(result: string, countsFormat: string, registers: Option<seq<int>>, pad: Padding): (r: Result<string, FormatError>)
    ensures countsFormat == "bin" ==> r == Ok(result)
    ensures countsFormat == "hex" && registers.None? ==> r == Err(MissingRegisters)
    ensures countsFormat != "bin" && countsFormat != "hex" ==> r == Err(UnknownFormat(countsFormat))
    ensures countsFormat == "hex" && registers.Some? ==> r == HexChunks(SplitWhitespace(result), registers.value, pad)
  {
    if countsFormat == "bin" then Ok(result)
    else if countsFormat == "hex" then
      if registers.None? then Err(MissingRegisters)
      else HexChunks(SplitWhitespace(result), registers.value, pad)
    else Err(UnknownFormat(countsFormat))
  }

  /** `_ensure_binary` as written. */
  function EnsureBinary(result: string, countsFormat: string, registers: Option<seq<int>>): (r: Result<string, FormatError>)
    ensures countsFormat == "bin" ==> r == Ok(result)
    ensures countsFormat == "hex" && registers.None? ==> r == Err(MissingRegisters)
    ensures countsFormat != "bin" && countsFormat != "hex" ==> r == Err(UnknownFormat(countsFormat))
  {
    Convert(result, countsFormat, registers, ThreeZeros)
  }

  /** `_ensure_binary` with every register rendered at its own width. */
  function EnsureBinaryFixedWidth(result: string, countsFormat: string, registers: Option<seq<int>>): (r: Result<string, FormatError>)
    ensures countsFormat == "bin" ==> r == Ok(result)
    ensures countsFormat == "hex" && registers.None? ==> r == Err(MissingRegisters)
    ensures countsFormat != "bin" && countsFormat != "hex" ==> r == Err(UnknownFormat(countsFormat))
  {
    Convert(result, countsFormat, registers, FullWidth)
  }

  // ---------------------------------------------------------------------
  // What the chunks hold
  // ---------------------------------------------------------------------

  function Concat(parts: seq<string>): string {
    if parts == [] then [] else parts[0] + Concat(parts[1..])
  }

  /** One chunk per (value, size) pair. */
  function Chunks(values: seq<int>, sizes: seq<int>, pad: Padding): (cs: seq<string>)
    requires |values| <= |sizes|
    ensures |cs| == |values| && forall i :: 0 <= i < |values| ==> cs[i] == ChunkFor(pad, values[i], sizes[i])
  {
    if values == [] then [] else [ChunkFor(pad, values[0], sizes[0])] + Chunks(values[1..], sizes[1..], pad)
  }

  /**
   * When the first `min(#tokens, #registers)` tokens read as `values`, the
   * result is their chunks joined in register order: one chunk per pair
   * that `zip` forms.
   */
  lemma HexChunksJoin(tokens: seq<string>, sizes: seq<int>, values: seq<int>, pad: Padding)
    requires |values| == Min(|tokens|, |sizes|)
    requires forall i :: 0 <= i < |values| ==> ParseInt(tokens[i], 16) == Some(values[i])
    ensures HexChunks(tokens, sizes, pad) == Ok(Concat(Chunks(values, sizes, pad)))
  {
    var lits := Literals(tokens);
    forall i | 0 <= i < |values| ensures lits[i] == Some(values[i]) {
      LiteralAt(tokens, i);
    }
    ChunksOfJoin(tokens, lits, sizes, values, pad);
  }

  lemma {:induction false} ChunksOfJoin(tokens: seq<string>, lits: seq<Option<int>>, sizes: seq<int>, values: seq<int>, pad: Padding)
    requires |lits| == |tokens| && |values| == Min(|tokens|, |sizes|)
    requires forall i :: 0 <= i < |values| ==> lits[i] == Some(values[i])
    ensures ChunksOf(tokens, lits, sizes, pad) == Ok(Concat(Chunks(values, sizes, pad)))
  {
    if tokens != [] && sizes != [] {
      assert lits[0] == Some(values[0]);
      forall i | 0 <= i < |values| - 1
        ensures lits[1..][i] == Some(values[1..][i])
      {
        assert lits[1..][i] == lits[i + 1];
      }
      ChunksOfJoin(tokens[1..], lits[1..], sizes[1..], values[1..], pad);
    }
  }

  /** With full-width padding the result is exactly as long as the registers it covers. */
  lemma {:induction false} FixedWidthLength(values: seq<int>, sizes: seq<int>)
    requires |values| <= |sizes|
    requires forall i :: 0 <= i < |sizes| ==> sizes[i] >= 0
    ensures |Concat(Chunks(values, sizes, FullWidth))| == Total(sizes[..|values|])
  {
    if values != [] {
      var rest := Chunks(values[1..], sizes[1..], FullWidth);
      var cs := [PaddedChunk(values[0], sizes[0])] + rest;
      assert Chunks(values, sizes, FullWidth) == cs;
      assert cs[0] == PaddedChunk(values[0], sizes[0]) && cs[1..] == rest;
      assert |Concat(cs)| == sizes[0] + |Concat(rest)|;
      FixedWidthLength(values[1..], sizes[1..]);
      var t := sizes[..|values|];
      assert t[0] == sizes[0] && t[1..] == sizes[1..][..|values| - 1];
    }
  }

  function Total(xs: seq<int>): int {
    if xs == [] then 0 else xs[0] + Total(xs[1..])
  }

  /** The last `size` digits (`size >= 1`) of zeros followed by the binary digits of `v` are `v mod 2^size`. */
  lemma TailValue(k: nat, v: nat, size: nat)
    requires size >= 1
    ensures DigitsValue(TailSlice(Zeros(k) + NatToDigits(v, 2), size), 2) == v % Pow(2, size)
  {
    PaddedBinary(k, v);
    SuffixValue(Zeros(k) + NatToDigits(v, 2), size);
  }

  /** Every character is a binary digit. */
  predicate Binary(s: string) {
    forall i :: 0 <= i < |s| ==> IsDigitIn(s[i], 2)
  }

  /** Zeros in front of the binary digits of `v`: still binary digits, still denoting `v`. */
  lemma PaddedBinary(k: nat, v: nat)
    ensures Binary(Zeros(k) + NatToDigits(v, 2))
    ensures DigitsValue(Zeros(k) + NatToDigits(v, 2), 2) == v
  {
    var z, bits := Zeros(k), NatToDigits(v, 2);
    assert Binary(z) && Binary(bits);
    BinaryConcat(z, bits);
    DigitsValueConcat(z, bits, 2);
    ZerosValue(k, 2);
    var pw := Pow(2, |bits|);
    assert DigitsValue(z, 2) * pw == 0 * pw == 0;
  }

  lemma BinaryConcat(a: string, b: string)
    requires Binary(a) && Binary(b)
    ensures Binary(a + b)
  {
    forall i | 0 <= i < |a + b| ensures IsDigitIn((a + b)[i], 2) {
      if i >= |a| {
        assert (a + b)[i] == b[i - |a|];
      } else {
        assert (a + b)[i] == a[i];
      }
    }
  }

  /** The last `size` binary digits of a numeral of `v` denote `v mod 2^size`. */
  lemma SuffixValue(s: string, size: nat)
    requires size >= 1
    requires Binary(s)
    ensures DigitsValue(TailSlice(s, size), 2) == DigitsValue(s, 2) % Pow(2, size)
  {
    if size <= |s| {
      var pre, c := s[..|s| - size], s[|s| - size..];
      assert TailSlice(s, size) == c;
      assert s == pre + c;
      forall i | 0 <= i < |c| ensures IsDigitIn(c[i], 2) {
        assert c[i] == s[|s| - size + i];
      }
      LastDigitsValue(pre, c);
    } else {
      assert TailSlice(s, size) == s;
      DigitsValueBound(s, 2);
      PowMonotone(2, |s|, size);
      SmallMod(DigitsValue(s, 2), Pow(2, size));
    }
  }

  lemma SmallMod(v: nat, m: nat)
    requires v < m
    ensures v % m == v
  {
  }

  /** Splitting a binary numeral after its prefix: the suffix is the remainder by a power of two. */
  lemma LastDigitsValue(pre: string, c: string)
    requires Binary(c)
    ensures DigitsValue(c, 2) == DigitsValue(pre + c, 2) % Pow(2, |c|)
  {
    DigitsValueConcat(pre, c, 2);
    DigitsValueBound(c, 2);
    ModOfMultipleAdd(DigitsValue(pre, 2), Pow(2, |c|), DigitsValue(c, 2));
  }

  /** A register chunk of a non-negative count, read in binary, is the count modulo `2^size`. */
  lemma ChunkValue(v: nat, size: nat)
    requires size >= 1
    ensures DigitsValue(Chunk(v, size), 2) == v % Pow(2, size)
  {
    assert "000" == Zeros(3);
    TailValue(3, v, size);
  }

  /** The full-width chunk holds the same value and is exactly `size` characters long. */
  lemma PaddedChunkValue(v: nat, size: nat)
    ensures |PaddedChunk(v, size)| == size
    ensures DigitsValue(PaddedChunk(v, size), 2) == v % Pow(2, size)
  {
    if size >= 1 {
      TailValue(size, v, size);
    }
  }

  /** A one-bit count in an eight-bit register comes out four characters wide instead of eight. */
  lemma NarrowChunkExample()
    ensures EnsureBinary("1", "hex", Some([8])) == Ok("0001")
    ensures EnsureBinaryFixedWidth("1", "hex", Some([8])) == Ok("00000001")
  {
    OneTokenChunks(ThreeZeros);
    OneTokenChunks(FullWidth);
    ChunksOfOne();
  }

  /** The count key `"1"` with one eight-bit register is the chunk of the value 1. */
  lemma OneTokenChunks(pad: Padding)
    ensures Convert("1", "hex", Some([8]), pad) == Ok(ChunkFor(pad, 1, 8))
  {
    SplitOneToken();
    ParseOne();
    SingleToken("1", 1, 8, pad);
  }

  /** One token and one register: the chunk of the token's value. */
  lemma SingleToken(t: string, v: int, size: int, pad: Padding)
    requires ParseInt(t, 16) == Some(v)
    ensures HexChunks([t], [size], pad) == Ok(ChunkFor(pad, v, size))
  {
    assert [t][0] == t && [v][0] == v;
    HexChunksJoin([t], [size], [v], pad);
    var c := ChunkFor(pad, v, size);
    assert Chunks([v], [size], pad) == [c];
    assert [c][0] == c && [c][1..] == [];
    assert Concat([c]) == c;
  }

  lemma ChunksOfOne()
    ensures Chunk(1, 8) == "0001"
    ensures PaddedChunk(1, 8) == "00000001"
  {
    assert BinaryString(1) == "1";
    assert Zeros(8) + "1" == "000000001";
  }

  lemma SplitOneToken()
    ensures SplitWhitespace("1") == ["1"]
  {
    assert !IsSpace('1');
    assert WordLength("1") == 1;
    assert "1"[..1] == "1" && "1"[1..] == [];
  }

  lemma ParseOne()
    ensures ParseInt("1", 16) == Some(1)
  {
    SingleDigit('1', 16);
  }

  /** A lone digit of the base reads as its value. */
  lemma SingleDigit(c: char, base: nat)
    requires base == 10 || base == 16
    requires IsDigitIn(c, base) && '0' <= c <= '9'
    ensures ParseInt([c], base) == Some(DigitValue(c))
  {
    var s := [c];
    DigitIsNotSpace(c);
    StripUnchanged(s);
    DigitsAreWellFormed(s, base);
    assert s[..0] == [];
    assert DigitsValue(s, base) == DigitValue(c);
    assert ParseUnsigned(s, base) == Some(DigitValue(c));
    UnsignedLiteral(s, base);
  }

  /** A literal with no surrounding space and no sign is read by its unsigned part alone. */
  lemma UnsignedLiteral(s: string, base: nat)
    requires base == 10 || base == 16
    requires Strip(s) == s && s != [] && s[0] != '-' && s[0] != '+'
    ensures ParseInt(s, base) == ParseUnsigned(s, base)
  {
  }
}
