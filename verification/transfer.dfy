/** The file-transfer half of `upload`: the `chunks` generator, the hex rows of
    the `+FWRH` commands, and the command list an upload issues. */
module Transfer {
  import opened Outcomes
  import opened Text

  /** `upload` reads the file 16 bytes at a time. */
  const ChunkSize: nat := 16

  function Concat<T>(cs: seq<seq<T>>): seq<T> {
    if cs == [] then [] else cs[0] + Concat(cs[1..])
  }

  /** The chunks `chunks(f, n)` yields for a file holding `data`: together they
      are the whole file; a chunk length of 0 yields nothing, since `read(0)` is
      empty. */
  function ChunksOf(data: seq<byte>, n: nat): (cs: seq<seq<byte>>)
    ensures n == 0 ==> cs == []
    ensures n > 0 ==> Concat(cs) == data
    decreases |data|
  {
    if n == 0 || data == [] then []
    else if |data| <= n then [data]
    else
      var tail := ChunksOf(data[n..], n);
      var cs := [data[..n]] + tail;
      assert cs[1..] == tail;
      assert data == data[..n] + data[n..];
      cs
  }

  /** Every chunk holds between 1 and n bytes, and all but the last exactly n. */
  lemma {:induction false} ChunkSizes(data: seq<byte>, n: nat)
    ensures forall i :: 0 <= i < |ChunksOf(data, n)| ==> 0 < |ChunksOf(data, n)[i]| <= n
    ensures forall i :: 0 <= i < |ChunksOf(data, n)| - 1 ==> |ChunksOf(data, n)[i]| == n
    decreases |data|
  {
    if n > 0 && |data| > n {
      ChunkSizes(data[n..], n);
      var tail := ChunksOf(data[n..], n);
      var cs := ChunksOf(data, n);
      assert cs == [data[..n]] + tail;
      assert forall i :: 0 <= i < |tail| ==> 0 < |tail[i]| <= n;
      assert forall i :: 0 <= i < |tail| - 1 ==> |tail[i]| == n;
      forall i | 0 <= i < |cs| ensures 0 < |cs[i]| <= n && (i < |cs| - 1 ==> |cs[i]| == n) {
        if i > 0 { assert cs[i] == tail[i - 1]; } else { assert cs[0] == data[..n]; }
      }
    }
  }

  /** An N-byte file is sent in ceil(N/16) chunks. */
  lemma {:induction false} ChunkCount(data: seq<byte>)
    ensures |ChunksOf(data, ChunkSize)| == (|data| + 15) / 16
    decreases |data|
  {
    if |data| > 16 {
      ChunkCount(data[16..]);
      assert ChunksOf(data, 16) == [data[..16]] + ChunksOf(data[16..], 16);
    }
  }

  /** One read of the generator: the chunk at `pos`, then the chunks after it. */
  lemma ChunksFrom(data: seq<byte>, pos: nat, n: nat)
    requires pos < |data| && n > 0
    ensures ChunksOf(data[pos..], n) ==
              [data[pos..Min(pos + n, |data|)]] + ChunksOf(data[Min(pos + n, |data|)..], n)
  {
    var rest := data[pos..];
    if |rest| <= n {
      assert data[Min(pos + n, |data|)..] == [];
      assert data[pos..Min(pos + n, |data|)] == rest;
    } else {
      assert rest[..n] == data[pos..pos + n];
      assert rest[n..] == data[pos + n..];
    }
  }

  /** `chunks(somefile, chunklen)`: reads the file from the start, one chunk per
      step, until a read comes back empty. */
  method Chunks(data: seq<byte>, chunkLen: nat) returns (cs: seq<seq<byte>>)
    ensures cs == ChunksOf(data, chunkLen)
  {
    cs := [];
    var pos := 0;
    assert data[pos..] == data;
    while true
      invariant pos <= |data|
      invariant cs + ChunksOf(data[pos..], chunkLen) == ChunksOf(data, chunkLen)
      decreases |data| - pos
    {
      var chunk := data[pos..Min(pos + chunkLen, |data|)];
      if |chunk| == 0 {
        assert chunkLen == 0 || data[pos..] == [];
        return;
      }
      ChunksFrom(data, pos, chunkLen);
      var next := Min(pos + chunkLen, |data|);
      assert (cs + [chunk]) + ChunksOf(data[next..], chunkLen) == cs + ([chunk] + ChunksOf(data[next..], chunkLen));
      cs := cs + [chunk];
      pos := next;
    }
  }

  const HexDigits: string := "0123456789abcdef"

  /** `"%02x" % b`: two lower-case hex digits, which read back as `b`. */
  function Hex2(b: byte): (s: string)
    ensures |s| == 2 && ParseHex(s) == Some([b])
  {
    var s := [HexDigits[b / 16], HexDigits[b % 16]];
    NibbleOfDigit(b / 16);
    NibbleOfDigit(b % 16);
    assert ParseHex([]) == Some([]);
    ParseHexPair(s[0], s[1], []);
    assert [s[0], s[1]] + [] == s;
    assert (b / 16) * 16 + b % 16 == b;
    assert [b] + [] == [b];
    s
  }

  /** The row `upload` sends for one chunk: `"".join("%02x" % x for x in chunk)`. */
  function HexRow(c: seq<byte>): (s: string)
    ensures |s| == 2 * |c|
  {
    if c == [] then [] else Hex2(c[0]) + HexRow(c[1..])
  }

  function NibbleValue(ch: char): (v: Option<nat>)
    ensures v.Some? ==> v.value < 16
  {
    if '0' <= ch <= '9' then Some(ch as int - '0' as int)
    else if 'a' <= ch <= 'f' then Some(ch as int - 'a' as int + 10)
    else None
  }

  /** Reads a row of lower-case hex digit pairs back into bytes. */
  function ParseHex(s: string): Option<seq<byte>>
    decreases |s|
  {
    if s == [] then Some([])
    else if |s| == 1 then None
    else
      var h, l, rest := NibbleValue(s[0]), NibbleValue(s[1]), ParseHex(s[2..]);
      if h.Some? && l.Some? && rest.Some? then Some([h.value * 16 + l.value] + rest.value) else None
  }

  lemma NibbleOfDigit(d: nat)
    requires d < 16
    ensures NibbleValue(HexDigits[d]) == Some(d)
  {
  }

  lemma DigitOfNibble(ch: char)
    requires NibbleValue(ch).Some?
    ensures HexDigits[NibbleValue(ch).value] == ch
  {
  }

  lemma NibblePair(h: nat, l: nat)
    requires h < 16 && l < 16
    ensures (h * 16 + l) / 16 == h && (h * 16 + l) % 16 == l
  {
  }

  lemma ParseHexPair(x: char, y: char, rest: string)
    requires NibbleValue(x).Some? && NibbleValue(y).Some? && ParseHex(rest).Some?
    ensures ParseHex([x, y] + rest)
         == Some([NibbleValue(x).value * 16 + NibbleValue(y).value] + ParseHex(rest).value)
  {
    assert ([x, y] + rest)[2..] == rest;
  }

  /** Every row decodes back to its chunk. */
  lemma {:induction false} ParseHexRow(c: seq<byte>)
    ensures ParseHex(HexRow(c)) == Some(c)
    decreases |c|
  {
    if c != [] {
      var s := HexRow(c);
      var hi, lo := c[0] / 16, c[0] % 16;
      assert s == [HexDigits[hi], HexDigits[lo]] + HexRow(c[1..]);
      assert s[0] == HexDigits[hi] && s[1] == HexDigits[lo];
      assert s[2..] == HexRow(c[1..]);
      NibbleOfDigit(hi);
      NibbleOfDigit(lo);
      ParseHexRow(c[1..]);
      ParseHexPair(s[0], s[1], s[2..]);
      assert hi * 16 + lo == c[0];
      assert s == [s[0], s[1]] + s[2..];
      assert [c[0]] + c[1..] == c;
    }
  }

  /** Conversely, every text ParseHex accepts is the row of what it decodes to. */
  lemma {:induction false} HexRowOfParse(s: string)
    requires ParseHex(s).Some?
    ensures HexRow(ParseHex(s).value) == s
    decreases |s|
  {
    if s != [] {
      var h, l := NibbleValue(s[0]).value, NibbleValue(s[1]).value;
      var tail := ParseHex(s[2..]).value;
      var b: byte := h * 16 + l;
      assert ParseHex(s).value == [b] + tail;
      HexRowOfParse(s[2..]);
      NibblePair(h, l);
      DigitOfNibble(s[0]);
      DigitOfNibble(s[1]);
      assert HexRow([b] + tail) == [s[0], s[1]] + HexRow(tail) by {
        assert ([b] + tail)[1..] == tail;
      }
      assert s == [s[0], s[1]] + s[2..];
    }
  }

  lemma {:induction false} HexRowAppend(a: seq<byte>, b: seq<byte>)
    ensures HexRow(a + b) == HexRow(a) + HexRow(b)
    decreases |a|
  {
    if a == [] {
      assert a + b == b;
    } else {
      assert (a + b)[0] == a[0] && (a + b)[1..] == a[1..] + b;
      HexRowAppend(a[1..], b);
      calc {
        HexRow(a + b);
        Hex2(a[0]) + HexRow(a[1..] + b);
        Hex2(a[0]) + (HexRow(a[1..]) + HexRow(b));
        (Hex2(a[0]) + HexRow(a[1..])) + HexRow(b);
      }
    }
  }

  function DeleteForUpload(name: string): string { "+DEL \"" + name + "\" +" }
  function OpenForWrite(name: string): string { "+FOW \"" + name + "\"" }
  function WriteHex(row: string): string { "+FWRH \"" + row + "\"" }
  const CloseFile: string := "+FCL"

  function Rows(cs: seq<seq<byte>>): seq<string> {
    if cs == [] then [] else [HexRow(cs[0])] + Rows(cs[1..])
  }

  function WriteCommands(rows: seq<string>): (cmds: seq<string>)
    ensures |cmds| == |rows| && forall i :: 0 <= i < |rows| ==> cmds[i] == WriteHex(rows[i])
  {
    if rows == [] then [] else [WriteHex(rows[0])] + WriteCommands(rows[1..])
  }

  /** The commands `upload` issues for `data` stored as `name`, when the module
      accepts each of them. */
  function UploadCommands(name: string, data: seq<byte>): seq<string> {
    [DeleteForUpload(name), OpenForWrite(name)] + WriteCommands(Rows(ChunksOf(data, ChunkSize))) + [CloseFile]
  }

  lemma RowsLength(cs: seq<seq<byte>>)
    ensures |Rows(cs)| == |cs| && forall i :: 0 <= i < |cs| ==> Rows(cs)[i] == HexRow(cs[i])
  {
    if cs != [] {
      RowsLength(cs[1..]);
    }
  }

  /** Delete first, then open, one `+FWRH` per 16-byte chunk (ceil(N/16) of them),
      close last. */
  lemma UploadCommandsShape(name: string, data: seq<byte>)
    ensures var cmds := UploadCommands(name, data);
            var cs := ChunksOf(data, ChunkSize);
            |cmds| == |cs| + 3 && |cs| == (|data| + 15) / 16 &&
            cmds[0] == DeleteForUpload(name) && cmds[1] == OpenForWrite(name) &&
            cmds[|cmds| - 1] == CloseFile &&
            forall i :: 0 <= i < |cs| ==> cmds[i + 2] == WriteHex(HexRow(cs[i])) && |HexRow(cs[i])| == 2 * |cs[i]|
  {
    var cs := ChunksOf(data, ChunkSize);
    RowsLength(cs);
    ChunkCount(data);
  }

  /** An empty file still gets delete, open and close, and no write. */
  lemma EmptyUpload(name: string)
    ensures UploadCommands(name, []) == [DeleteForUpload(name), OpenForWrite(name), CloseFile]
  {
  }

  /** A 20-byte file is written as a 16-byte row and a 4-byte row. */
  lemma TwentyByteUpload(name: string, data: seq<byte>)
    requires |data| == 20
    ensures UploadCommands(name, data) ==
              [DeleteForUpload(name), OpenForWrite(name),
               WriteHex(HexRow(data[..16])), WriteHex(HexRow(data[16..])), CloseFile]
    ensures |HexRow(data[..16])| == 32 && |HexRow(data[16..])| == 8
  {
    var cs := ChunksOf(data, ChunkSize);
    assert cs == [data[..16], data[16..]] by {
      assert ChunksOf(data[16..], 16) == [data[16..]];
    }
    assert cs[1..] == [data[16..]];
    assert Rows(cs[1..]) == [HexRow(data[16..])];
    assert Rows(cs) == [HexRow(data[..16]), HexRow(data[16..])];
  }

  lemma {:induction false} RowsConcat(cs: seq<seq<byte>>)
    ensures Concat(Rows(cs)) == HexRow(Concat(cs))
    decreases |cs|
  {
    if cs != [] {
      RowsConcat(cs[1..]);
      HexRowAppend(cs[0], Concat(cs[1..]));
    }
  }

  /** What the rows carry, decoded and put together, is exactly the file. */
  lemma UploadRowsCarryFile(data: seq<byte>)
    ensures ParseHex(Concat(Rows(ChunksOf(data, ChunkSize)))) == Some(data)
  {
    RowsConcat(ChunksOf(data, ChunkSize));
    ParseHexRow(data);
  }
}
