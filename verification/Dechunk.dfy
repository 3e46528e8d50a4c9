/** Decoding a chunked body in place: section 7.1 of RFC 9112. */
module Dechunk {
  import opened Bytes

  const LF: u8 := 10
  const CR: u8 := 13
  const MOD: nat := 0x1_0000_0000

  /** The value of a hexadecimal digit, or -1. */
  function HexVal(c: u8): (v: int)
    ensures -1 <= v < 16
  {
    if 48 <= c <= 57 then c as int - 48
    else
      var l := if 65 <= c <= 90 then c as int + 32 else c as int;
      if 97 <= l <= 102 then l - 97 + 10 else -1
  }

  // ----- the decoder as a function of the bytes that are left -----

  /** How many hexadecimal digits come first. */
  function DigitRun(s: seq<u8>): (d: nat)
    ensures d <= |s| && (forall i :: 0 <= i < d ==> HexVal(s[i]) >= 0) && (d < |s| ==> HexVal(s[d]) < 0)
  {
    if s == [] || HexVal(s[0]) < 0 then 0 else 1 + DigitRun(s[1..])
  }

  /** The number they make, in 32 bits. */
  function Value(digits: seq<u8>): (v: nat)
    requires forall i :: 0 <= i < |digits| ==> HexVal(digits[i]) >= 0
    ensures v < MOD
  {
    if digits == [] then 0 else (Value(digits[..|digits| - 1]) * 16 + HexVal(digits[|digits| - 1])) % MOD
  }

  /** What follows the first line feed; nothing when there is none. */
  function AfterLine(s: seq<u8>): (r: seq<u8>)
    ensures |r| < |s| || (s == [] && r == [])
  {
    if s == [] then [] else if s[0] == LF then s[1..] else AfterLine(s[1..])
  }

  function Drop(s: seq<u8>, n: nat): (r: seq<u8>)
    ensures |r| <= |s|
  {
    if n <= |s| then s[n..] else []
  }

  function Take(s: seq<u8>, n: nat): (r: seq<u8>)
    ensures |r| <= |s|
  {
    if n <= |s| then s[..n] else s
  }

  function Decode(s: seq<u8>): seq<u8>
    decreases |s|
  {
    if s == [] then []
    else
      var size := Value(s[..DigitRun(s)]);
      var rest := AfterLine(s[DigitRun(s)..]);
      if size == 0 then [] else Take(rest, size) + Decode(Drop(Drop(rest, size), 2))
  }

  // ----- well-formed bodies -----

  /** A size in hexadecimal, an extension, and that many bytes. */
  datatype Chunk = Chunk(digits: seq<u8>, extension: seq<u8>, data: seq<u8>)

  ghost predicate GoodLine(digits: seq<u8>, extension: seq<u8>) {
    && digits != [] && (forall i :: 0 <= i < |digits| ==> HexVal(digits[i]) >= 0)
    && LF !in extension && (extension != [] ==> HexVal(extension[0]) < 0)
  }

  ghost predicate GoodChunk(c: Chunk) {
    GoodLine(c.digits, c.extension) && 0 < |c.data| < MOD && Value(c.digits) == |c.data|
  }

  function EncodeChunk(c: Chunk): seq<u8> {
    c.digits + c.extension + [CR, LF] + c.data + [CR, LF]
  }

  /** Chunks, then the last chunk with its trailer. */
  function Encode(cs: seq<Chunk>, last: seq<u8>): seq<u8> {
    if cs == [] then last else EncodeChunk(cs[0]) + Encode(cs[1..], last)
  }

  /** The last chunk has size zero; what comes after its line does not matter. */
  ghost predicate GoodLast(last: seq<u8>) {
    exists digits, extension, trailer ::
      last == digits + extension + [CR, LF] + trailer && GoodLine(digits, extension) && Value(digits) == 0
  }

  function Contents(cs: seq<Chunk>): seq<u8> {
    if cs == [] then [] else cs[0].data + Contents(cs[1..])
  }

  lemma {:induction false} RunIs(digits: seq<u8>, after: seq<u8>)
    requires forall i :: 0 <= i < |digits| ==> HexVal(digits[i]) >= 0
    requires after != [] ==> HexVal(after[0]) < 0
    ensures DigitRun(digits + after) == |digits|
  {
    hide HexVal;
    if digits == [] {
      assert digits + after == after;
    } else {
      assert (digits + after)[1..] == digits[1..] + after;
      RunIs(digits[1..], after);
    }
  }

  lemma {:induction false} LineIs(line: seq<u8>, after: seq<u8>)
    requires LF !in line
    ensures AfterLine(line + [LF] + after) == after
  {
    if line == [] {
      assert line + [LF] + after == [LF] + after;
    } else {
      assert (line + [LF] + after)[1..] == line[1..] + [LF] + after;
      LineIs(line[1..], after);
    }
  }

  lemma HeaderIs(digits: seq<u8>, extension: seq<u8>, after: seq<u8>)
    requires GoodLine(digits, extension)
    ensures var s := digits + extension + [CR, LF] + after;
      && DigitRun(s) == |digits| && s[..|digits|] == digits && AfterLine(s[|digits|..]) == after
  {
    hide DigitRun, AfterLine;
    var s := digits + extension + [CR, LF] + after;
    var tail := extension + [CR, LF] + after;
    assert s == digits + tail;
    assert HexVal(CR) < 0;
    RunIs(digits, tail);
    assert s[|digits|..] == (extension + [CR]) + [LF] + after;
    LineIs(extension + [CR], after);
  }

  lemma ChunkDecodes(c: Chunk, after: seq<u8>)
    requires GoodChunk(c)
    ensures Decode(EncodeChunk(c) + after) == c.data + Decode(after)
  {
    hide DigitRun, AfterLine, HexVal, Value;
    var body := c.data + [CR, LF] + after;
    var s := EncodeChunk(c) + after;
    assert s == c.digits + c.extension + [CR, LF] + body;
    HeaderIs(c.digits, c.extension, body);
    assert Take(body, |c.data|) == c.data;
    assert Drop(body, |c.data|) == [CR, LF] + after;
    assert Drop([CR, LF] + after, 2) == after;
  }

  /** A well-formed body decodes to the contents of its chunks. */
  lemma {:induction false} BodyDecodes(cs: seq<Chunk>, last: seq<u8>)
    requires (forall i :: 0 <= i < |cs| ==> GoodChunk(cs[i])) && GoodLast(last)
    ensures Decode(Encode(cs, last)) == Contents(cs)
    decreases |cs|
  {
    hide DigitRun, AfterLine, HexVal, Value, EncodeChunk;
    if cs == [] {
      var digits, extension, trailer :| last == digits + extension + [CR, LF] + trailer
        && GoodLine(digits, extension) && Value(digits) == 0;
      HeaderIs(digits, extension, trailer);
    } else {
      BodyDecodes(cs[1..], last);
      ChunkDecodes(cs[0], Encode(cs[1..], last));
    }
  }

  // ----- bodies as servers write them -----

  /** The hexadecimal digit for d, in lower or upper case. */
  function HexDigit(d: nat, upper: bool): u8
    requires d < 16
  {
    (if upper then "0123456789ABCDEF" else "0123456789abcdef")[d] as u8
  }

  /** A number in hexadecimal, without leading zeros. */
  function Hex(n: nat, upper: bool): (s: seq<u8>)
    ensures s != []
  {
    (if n < 16 then [] else Hex(n / 16, upper)) + [HexDigit(n % 16, upper)]
  }

  lemma DigitValue(d: nat, upper: bool)
    requires d < 16
    ensures HexVal(HexDigit(d, upper)) == d
  {
  }

  /** A size is read as it was written. */
  lemma {:induction false} HexReads(n: nat, upper: bool)
    requires n < 0x1_0000_0000
    ensures forall i :: 0 <= i < |Hex(n, upper)| ==> HexVal(Hex(n, upper)[i]) >= 0
    ensures Value(Hex(n, upper)) == n
    decreases n
  {
    hide HexVal, HexDigit;
    DigitValue(n % 16, upper);
    var s := Hex(n, upper);
    if n < 16 {
      assert s == [HexDigit(n, upper)] && s[..0] == [];
    } else {
      HexReads(n / 16, upper);
      assert s[..|s| - 1] == Hex(n / 16, upper);
    }
  }

  /** Each piece behind its size, and a piece of size 0 at the end. */
  function Body(pieces: seq<seq<u8>>, upper: bool): seq<u8> {
    if pieces == [] then [48, 13, 10, 13, 10]
    else Hex(|pieces[0]|, upper) + [13, 10] + pieces[0] + [13, 10] + Body(pieces[1..], upper)
  }

  /** That decodes to the pieces. */
  lemma {:induction false} WrittenBodyDecodes(pieces: seq<seq<u8>>, upper: bool)
    requires forall i :: 0 <= i < |pieces| ==> 0 < |pieces[i]| < 0x1_0000_0000
    ensures Decode(Body(pieces, upper)) == Flat(pieces)
  {
    hide Decode, Value, HexVal, Hex;
    if pieces == [] {
      NoMore();
    } else {
      var c := Chunk(Hex(|pieces[0]|, upper), [], pieces[0]);
      HexReads(|pieces[0]|, upper);
      WrittenBodyDecodes(pieces[1..], upper);
      ChunkDecodes(c, Body(pieces[1..], upper));
      assert Body(pieces, upper) == EncodeChunk(c) + Body(pieces[1..], upper);
    }
  }

  lemma NoMore()
    ensures Decode([48, 13, 10, 13, 10]) == []
  {
    hide Decode, Value;
    assert Hex(0, true) == [48];
    HexReads(0, true);
    var last: seq<u8> := [48, 13, 10, 13, 10];
    assert last == [48] + [] + [CR, LF] + [13, 10] && GoodLine([48], []);
    BodyDecodes([], last);
  }

  // ----- truncation -----

  lemma {:induction false} RunOfPrefix(s: seq<u8>, k: nat)
    requires k <= |s|
    ensures DigitRun(s[..k]) == if DigitRun(s) < k then DigitRun(s) else k
  {
    hide HexVal;
    if s != [] && k > 0 && HexVal(s[0]) >= 0 {
      assert s[..k][1..] == s[1..][..k - 1];
      RunOfPrefix(s[1..], k - 1);
    }
  }

  /** Of a shorter text the rest after its first line is nothing, or shorter by as much. */
  lemma {:induction false} LineOfPrefix(s: seq<u8>, k: nat)
    requires k <= |s|
    ensures var r := AfterLine(s);
      if |s| - k <= |r| then AfterLine(s[..k]) == r[..|r| - (|s| - k)] else AfterLine(s[..k]) == []
    decreases |s|
  {
    if s != [] {
      if k == 0 {
        assert s[..0] == [];
        assert |AfterLine(s)| < |s|;
      } else if s[0] == LF {
        assert s[..k][1..] == s[1..][..k - 1];
      } else {
        assert s[..k][1..] == s[1..][..k - 1];
        LineOfPrefix(s[1..], k - 1);
      }
    }
  }

  /** The result for a truncated body, whatever the body, is a prefix of the result for all of it. */
  lemma {:induction false} TruncationGivesPrefix(s: seq<u8>, k: nat)
    requires k <= |s|
    ensures Decode(s[..k]) <= Decode(s)
    decreases |s|
  {
    hide DigitRun, AfterLine, HexVal, Value, Decode, Drop, Take;
    if k == 0 {
      DropAll(s, |s|);
      assert s[..0] == [];
    } else if DigitRun(s) < k {
      HeaderCut(s, k);
      DecodeUnfolds(s);
      DecodeUnfolds(s[..k]);
      var d := DigitRun(s);
      var rest, cut, size := AfterLine(s[d..]), AfterLine(s[..k][d..]), Value(s[..d]);
      if size > 0 {
        var a, b := Drop(Drop(rest, size), 2), Drop(Drop(cut, size), 2);
        DropPrefix(rest, cut, size);
        TruncationGivesPrefix(a, |b|);
        Assemble(rest, cut, size);
      }
    } else {
      RunOfPrefix(s, k);
      NoLine(s[..k], k);
    }
  }

  /** A cut after the digits of a size leaves them, and of the rest a prefix. */
  lemma HeaderCut(s: seq<u8>, k: nat)
    requires DigitRun(s) < k <= |s|
    ensures DigitRun(s[..k]) == DigitRun(s) && s[..k][..DigitRun(s)] == s[..DigitRun(s)]
    ensures AfterLine(s[..k][DigitRun(s)..]) <= AfterLine(s[DigitRun(s)..])
  {
    hide DigitRun, AfterLine, HexVal;
    RunOfPrefix(s, k);
    Slices(s, DigitRun(s), k);
    LineOfPrefix(s[DigitRun(s)..], k - DigitRun(s));
  }

  lemma Slices(s: seq<u8>, d: nat, k: nat)
    requires d <= k <= |s|
    ensures s[..k][..d] == s[..d] && s[..k][d..] == s[d..][..k - d]
  {
  }

  lemma DropPrefix(rest: seq<u8>, cut: seq<u8>, size: nat)
    requires cut <= rest
    ensures Drop(Drop(cut, size), 2) <= Drop(Drop(rest, size), 2)
    ensures Drop(Drop(rest, size), 2)[..|Drop(Drop(cut, size), 2)|] == Drop(Drop(cut, size), 2)
    ensures |Drop(Drop(rest, size), 2)| <= |rest|
  {
    if size + 2 <= |cut| {
      assert Drop(Drop(rest, size), 2) == rest[size + 2..] && Drop(Drop(cut, size), 2) == cut[size + 2..];
    }
  }

  lemma TakenPrefix(rest: seq<u8>, cut: seq<u8>, size: nat)
    requires cut <= rest
    ensures Take(cut, size) <= Take(rest, size) && (size <= |cut| ==> Take(cut, size) == Take(rest, size))
  {
  }

  lemma Assemble(rest: seq<u8>, cut: seq<u8>, size: nat)
    requires cut <= rest && Decode(Drop(Drop(cut, size), 2)) <= Decode(Drop(Drop(rest, size), 2))
    ensures Take(cut, size) + Decode(Drop(Drop(cut, size), 2)) <= Take(rest, size) + Decode(Drop(Drop(rest, size), 2))
  {
    TakenPrefix(rest, cut, size);
    if size > |cut| {
      assert Drop(Drop(cut, size), 2) == [];
    }
    hide Decode;
  }

  /** Digits alone decode to nothing. */
  lemma NoLine(s: seq<u8>, k: nat)
    requires DigitRun(s) == k == |s|
    ensures Decode(s) == []
  {
    hide DigitRun;
    assert s[k..] == [];
    assert Take([], Value(s[..k])) == [] && Drop(Drop([], Value(s[..k])), 2) == [];
  }

  /** A body cut off anywhere decodes to a prefix of its contents. */
  lemma CutBodyDecodes(cs: seq<Chunk>, last: seq<u8>, k: nat)
    requires (forall i :: 0 <= i < |cs| ==> GoodChunk(cs[i])) && GoodLast(last) && k <= |Encode(cs, last)|
    ensures Decode(Encode(cs, last)[..k]) <= Contents(cs)
  {
    hide Decode, Encode;
    BodyDecodes(cs, last);
    TruncationGivesPrefix(Encode(cs, last), k);
  }

  // ----- in place -----

  lemma {:induction false} LineStops(s: seq<u8>, n: nat)
    requires n <= |s| && (forall i :: 0 <= i < n ==> s[i] != LF) && (n < |s| ==> s[n] == LF)
    ensures AfterLine(s) == Drop(s, n + 1)
    decreases |s|
  {
    if s != [] && n > 0 {
      LineStops(s[1..], n - 1);
      assert n + 1 <= |s| ==> s[1..][n..] == s[n + 1..];
    }
  }

  /** Reads hexadecimal digits. */
  method ReadDigits(resp: array<u8>, src: nat, respLen: nat) returns (size: nat, src': nat)
    requires src < respLen <= resp.Length
    ensures var s := resp[src..respLen]; src' == src + DigitRun(s) <= respLen && size == Value(s[..DigitRun(s)])
  {
    hide HexVal, Value, DigitRun;
    ghost var s := resp[src..respLen];
    size, src' := 0, src;
    EmptyValue();
    assert s[..0] == [];
    while src' < respLen && HexVal(resp[src']) >= 0
      invariant src <= src' <= respLen && forall i :: 0 <= i < src' - src ==> HexVal(s[i]) >= 0
      invariant size == Value(s[..src' - src])
    {
      assert s[src' - src] == resp[src'];
      NextDigit(s, src' - src);
      size := (size * 16 + HexVal(resp[src'])) % MOD;
      src' := src' + 1;
    }
    assert src' < respLen ==> s[src' - src] == resp[src'];
  }

  /** Goes to the byte after the next line feed. */
  method SkipLine(resp: array<u8>, src: nat, respLen: nat) returns (src': nat)
    requires src <= respLen <= resp.Length
    ensures src < src' <= respLen + 1 && Drop(resp[..respLen], src') == AfterLine(resp[src..respLen])
  {
    hide AfterLine, Drop;
    ghost var t := resp[src..respLen];
    src' := src;
    while src' < respLen && resp[src'] != LF
      invariant src <= src' <= respLen && forall i :: 0 <= i < src' - src ==> t[i] != LF
    {
      assert t[src' - src] == resp[src'];
      src' := src' + 1;
    }
    assert src' < respLen ==> t[src' - src] == resp[src'];
    LineStops(t, src' - src);
    Unread(resp[..respLen], src);
    assert resp[..respLen][src..] == t;
    DropTwice(resp[..respLen], src, src' - src + 1);
    src' := src' + 1;
  }

  /** Reads a size in hexadecimal, and skips to the next line. */
  method ReadSize(resp: array<u8>, src: nat, respLen: nat) returns (size: nat, src': nat)
    requires src < respLen <= resp.Length
    ensures src < src' <= respLen + 1
    ensures var s := resp[src..respLen];
      size == Value(s[..DigitRun(s)]) && AfterLine(s[DigitRun(s)..]) == Drop(resp[..respLen], src')
  {
    hide HexVal, Value, DigitRun, AfterLine, Drop;
    ghost var s := resp[src..respLen];
    size, src' := ReadDigits(resp, src, respLen);
    assert s[src' - src..] == resp[src'..respLen];
    src' := SkipLine(resp, src', respLen);
  }

  lemma EmptyValue()
    ensures Value([]) == 0
  {
  }

  lemma NextDigit(s: seq<u8>, n: nat)
    requires n < |s| && forall i :: 0 <= i <= n ==> HexVal(s[i]) >= 0
    ensures Value(s[..n + 1]) == (Value(s[..n]) * 16 + HexVal(s[n])) % MOD
  {
    hide HexVal;
    assert s[..n + 1][..n] == s[..n];
  }

  /** Moves a chunk's bytes down to dst; fewer when the body ends first. */
  method CopyChunk(resp: array<u8>, src: nat, dst: nat, size: nat, respLen: nat) returns (src': nat, dst': nat)
    requires dst <= src && respLen <= resp.Length && dst <= respLen
    modifies resp
    ensures src <= src' && dst <= dst' <= src' && dst' <= respLen
    ensures resp[..dst'] == old(resp[..dst]) + Take(Drop(old(resp[..respLen]), src), size)
    ensures Drop(resp[..respLen], src') == Drop(old(resp[..respLen]), src')
      == Drop(Drop(old(resp[..respLen]), src), size)
  {
    ghost var was := resp[..];
    var k := 0;
    src', dst' := src, dst;
    while k < size && src' < respLen
      invariant k <= size && src' == src + k && dst' == dst + k && (k > 0 ==> src' <= respLen)
      invariant forall i :: 0 <= i < dst ==> resp[i] == was[i]
      invariant forall i :: dst <= i < dst' ==> resp[i] == was[i + (src - dst)]
      invariant forall i :: src' <= i < resp.Length ==> resp[i] == was[i]
    {
      resp[dst'] := resp[src'];
      dst', src', k := dst' + 1, src' + 1, k + 1;
    }
    Copied(was, resp[..], src, dst, size, respLen, k);
  }

  lemma Copied(was: seq<u8>, now: seq<u8>, src: nat, dst: nat, size: nat, respLen: nat, k: nat)
    requires |was| == |now| && dst <= src && respLen <= |was| && dst <= respLen && k <= size
      && (k > 0 ==> src + k <= respLen)
    requires k == size || src + k >= respLen
    requires forall i :: 0 <= i < dst ==> now[i] == was[i]
    requires forall i :: dst <= i < dst + k ==> now[i] == was[i + (src - dst)]
    requires forall i :: src + k <= i < |was| ==> now[i] == was[i]
    ensures dst + k <= respLen && now[..dst + k] == was[..dst] + Take(Drop(was[..respLen], src), size)
    ensures Drop(now[..respLen], src + k) == Drop(was[..respLen], src + k) == Drop(Drop(was[..respLen], src), size)
  {
    var taken := Take(Drop(was[..respLen], src), size);
    assert |taken| == k;
    assert forall i :: 0 <= i < k ==> taken[i] == was[src + i];
    assert now[..dst + k] == was[..dst] + taken;
    assert Drop(now[..respLen], src + k) == Drop(was[..respLen], src + k);
  }

  lemma DropTwice(s: seq<u8>, a: nat, b: nat)
    ensures Drop(Drop(s, a), b) == Drop(s, a + b)
  {
  }

  lemma DropAll(s: seq<u8>, a: nat)
    requires a >= |s|
    ensures Drop(s, a) == [] && Decode([]) == []
  {
  }

  lemma DecodeUnfolds(s: seq<u8>)
    requires s != []
    ensures var size := Value(s[..DigitRun(s)]); var rest := AfterLine(s[DigitRun(s)..]);
      Decode(s) == if size == 0 then [] else Take(rest, size) + Decode(Drop(Drop(rest, size), 2))
  {
  }

  /** What is decoded so far, and what is still to be decoded, make up the result. */
  ghost predicate OnTheWay(done: seq<u8>, left: seq<u8>, result: seq<u8>) {
    done + Decode(left) == result
  }

  lemma SetOut(before: seq<u8>, left: seq<u8>, result: seq<u8>)
    requires result == before + Decode(left)
    ensures OnTheWay(before, left, result)
  {
  }

  lemma Arrived(done: seq<u8>, left: seq<u8>, result: seq<u8>)
    requires OnTheWay(done, left, result)
    requires left == [] || Value(left[..DigitRun(left)]) == 0
    ensures done == result
  {
    hide Value, DigitRun, AfterLine, Take, Drop;
  }

  lemma OneChunk(done: seq<u8>, left: seq<u8>, result: seq<u8>, rest: seq<u8>, size: nat)
    requires OnTheWay(done, left, result) && left != [] && size > 0
    requires size == Value(left[..DigitRun(left)]) && rest == AfterLine(left[DigitRun(left)..])
    ensures OnTheWay(done + Take(rest, size), Drop(Drop(rest, size), 2), result)
  {
    hide Value, DigitRun, AfterLine, Take, Drop, Decode;
    DecodeUnfolds(left);
  }

  /** Decodes resp[start..respLen] in place and returns the end of the result. Writing never overtakes reading. */
  method Run(resp: array<u8>, respLen: nat, start: nat) returns (dst: nat)
    requires start <= respLen < resp.Length && respLen < MOD / 2
    modifies resp
    ensures start <= dst <= respLen && resp[dst] == 0
    ensures resp[..dst] == old(resp[..start]) + Decode(old(resp[start..respLen]))
  {
    hide Decode, Value, DigitRun, AfterLine, Drop, Take, OnTheWay;
    ghost var result := resp[..start] + Decode(resp[start..respLen]);
    var src := start;
    dst := start;
    UnreadIn(resp, start, respLen);
    ghost var left := Drop(resp[..respLen], src);
    SetOut(resp[..start], left, result);
    while src < respLen
      invariant start <= dst <= src && dst <= respLen && left == Drop(resp[..respLen], src)
      invariant OnTheWay(resp[..dst], left, result)
      decreases respLen + 2 - src
    {
      UnreadIn(resp, src, respLen);
      var size, from := ReadSize(resp, src, respLen);
      if size == 0 {
        break;
      }
      ghost var rest := Drop(resp[..respLen], from);
      OneChunk(resp[..dst], left, result, rest, size);
      src, dst := CopyChunk(resp, from, dst, size, respLen);
      DropTwice(resp[..respLen], src, 2);
      src := src + 2;
      left := Drop(resp[..respLen], src);
    }
    if src >= respLen {
      DropAll(resp[..respLen], src);
    }
    Arrived(resp[..dst], left, result);
    ghost var decoded := resp[..dst];
    resp[dst] := 0;
    assert resp[..dst] == decoded;
  }

  lemma UnreadIn(a: array<u8>, src: nat, len: nat)
    requires src <= len <= a.Length
    ensures Drop(a[..len], src) == a[src..len]
  {
  }

  lemma Unread(s: seq<u8>, n: nat)
    requires n <= |s|
    ensures Drop(s, n) == s[n..]
  {
  }
}
