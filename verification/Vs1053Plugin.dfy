/**
 loadPlugin of src/module_shims/audio-vs1053b.c: a loader for plugin images, a printer for such images, and
 the proof that loading what was printed writes exactly the printed records.
 */
module Vs1053Plugin {
  import opened Bytes

  /** A write to the chip: of the RAM address register, or of the RAM data register. */
  datatype Write = WramAddr(value: nat) | Wram(value: nat)

  /** The value returned; or the loader read on behind the end of the file. */
  datatype Result = Returned(value: nat) | Overrun

  const NO_PLUGIN := 0xFFFF

  /** "P&H" */
  const MAGIC: seq<byte> := ['P' as int, '&' as int, 'H' as int]

  function Word(hi: byte, lo: byte): (w: nat)
    ensures w < 0x1_0000
  {
    var h: int, l: int := hi, lo;
    h * 256 + l
  }

  /** A length: the lowest bit is dropped. */
  function LengthWord(hi: byte, lo: byte): (n: nat)
    ensures n < 0x1_0000 && n % 2 == 0
  {
    Word(hi, lo - lo % 2)
  }

  /** Where the RAM of each record type begins in the chip's address space. */
  function Offset(kind: nat): nat {
    if kind == 0 then 0x8000 else if kind == 1 then 0 else 0x4000
  }

  /** Turns of the do-while loop for a 16-bit length that counts down by two until it is zero. */
  function WordCount(len: nat): nat {
    if len == 0 then 0x8000 else len / 2
  }

  /** The data words of a record: what is written, and whether the file holds them all. */
  function DataWords(s: seq<byte>, n: nat): (r: (seq<Write>, bool))
    ensures r.1 ==> 2 * n <= |s|
    decreases n
  {
    if n == 0 then ([], true)
    else if |s| < 2 then ([], false)
    else
      var (ws, complete) := DataWords(s[2..], n - 1);
      ([Wram(Word(s[0], s[1]))] + ws, complete)
  }

  /** The loop over the records of a file, from some record on. */
  function LoadRecords(s: seq<byte>): (Result, seq<Write>)
    decreases |s|
  {
    if s == [] || s[0] >= 4 then (Returned(NO_PLUGIN), [])
    else if |s| < 5 then (Overrun, [])
    else
      var n := WordCount(LengthWord(s[1], s[2]));
      var addr := Word(s[3], s[4]);
      if s[0] == 3 then (Returned(addr), [])
      else
        var first := [WramAddr((addr + Offset(s[0])) % 0x1_0000)];
        var (ws, complete) := DataWords(s[5..], n);
        if !complete then (Overrun, first + ws)
        else
          var (result, rest) := LoadRecords(s[5 + 2 * n..]);
          (result, first + ws + rest)
  }

  function Load(file: seq<byte>): (Result, seq<Write>) {
    if |file| < 3 || file[..3] != MAGIC then (Returned(NO_PLUGIN), []) else LoadRecords(file[3..])
  }

  // ---------------------------------------------------------------- the loader

  /** The do-while loop that writes the data words of a record. */
  method WriteData(file: seq<byte>, start: nat, length: nat) returns (pos: nat, writes: seq<Write>, complete: bool)
    requires start <= |file| && length % 2 == 0 && length < 0x1_0000
    ensures (writes, complete) == DataWords(file[start..], WordCount(length))
    ensures complete ==> pos == start + 2 * WordCount(length) <= |file|
  {
    pos, writes := start, [];
    var len: nat := length;
    var more := true;
    assert [] + DataWords(file[start..], WordCount(length)).0 == DataWords(file[start..], WordCount(length)).0;
    while more
      invariant start <= pos <= |file| && len % 2 == 0 && len < 0x1_0000
      invariant var left := if more then WordCount(len) else 0;
                && pos == start + 2 * (WordCount(length) - left)
                && var (rest, whole) := DataWords(file[pos..], left);
                   DataWords(file[start..], WordCount(length)) == (writes + rest, whole)
      decreases if more then WordCount(len) else 0, more
    {
      if pos + 2 > |file| {
        assert writes + [] == writes;
        return pos, writes, false;
      }
      assert file[pos..][2..] == file[pos + 2..];
      var word := Wram(Word(file[pos], file[pos + 1]));
      ghost var rest := DataWords(file[pos + 2..], WordCount(len) - 1).0;
      assert writes + ([word] + rest) == writes + [word] + rest;
      writes := writes + [word];
      pos := pos + 2;
      len := (len + 0xFFFE) % 0x1_0000;
      more := len != 0;
    }
    complete := true;
    assert writes + [] == writes;
  }

  /** One turn of the loop over the records: the loader returns, or goes on at the next record. */
  method LoadRecord(file: seq<byte>, pos: nat) returns (result: Option<Result>, writes: seq<Write>, next: nat)
    requires pos < |file|
    ensures result.Some? ==> (result.value, writes) == LoadRecords(file[pos..])
    ensures result.None? ==>
              pos < next <= |file|
              && var (r, rest) := LoadRecords(file[next..]); LoadRecords(file[pos..]) == (r, writes + rest)
  {
    ghost var s := file[pos..];
    if file[pos] >= 4 {
      return Some(Returned(NO_PLUGIN)), [], pos;
    }
    if pos + 5 > |file| {
      return Some(Overrun), [], pos;
    }
    var len := LengthWord(file[pos + 1], file[pos + 2]);
    var addr := Word(file[pos + 3], file[pos + 4]);
    if file[pos] == 3 {
      return Some(Returned(addr)), [], pos;
    }
    assert s[5..] == file[pos + 5..];
    var words, complete;
    next, words, complete := WriteData(file, pos + 5, len);
    writes := [WramAddr((addr + Offset(file[pos])) % 0x1_0000)] + words;
    if complete {
      assert s[5 + 2 * WordCount(len)..] == file[next..];
      return None, writes, next;
    }
    result := Some(Overrun);
  }

  /** loadPlugin, once the file has been opened */
  method LoadPlugin(file: seq<byte>) returns (result: Result, writes: seq<Write>)
    ensures (result, writes) == Load(file)
  {
    writes := [];
    if |file| < 3 {
      return Returned(NO_PLUGIN), [];
    }
    if file[0] != 'P' as int || file[1] != '&' as int || file[2] != 'H' as int {
      return Returned(NO_PLUGIN), [];
    }
    assert file[..3] == MAGIC;
    var pos := 3;
    Nothing(LoadRecords(file[pos..]).1);
    while pos < |file|
      invariant 3 <= pos <= |file|
      invariant var (r, ws) := LoadRecords(file[pos..]); Load(file) == (r, writes + ws)
      decreases |file| - pos
    {
      var done, ws, next := LoadRecord(file, pos);
      if done.Some? {
        return done.value, writes + ws;
      }
      ConcatAssociates(writes, ws, LoadRecords(file[next..]).1);
      writes, pos := writes + ws, next;
    }
    Nothing(writes);
    result := Returned(NO_PLUGIN);
  }

  lemma Nothing(a: seq<Write>)
    ensures [] + a == a && a + [] == a
  {}

  // ---------------------------------------------------------------- the printer

  /**
   A record to be loaded: its type, its address and its words. `oddBit` is the lowest bit of the length field,
   which does not matter.
   */
  datatype Record = Record(kind: byte, addr: nat, words: seq<nat>, oddBit: nat)

  /** Up to 32768 words: that many have the length zero, for which the loop runs all the way round. */
  predicate Printable(r: Record) {
    r.kind <= 2 && r.addr < 0x1_0000 && 1 <= |r.words| <= 0x8000 && r.oddBit < 2
    && forall i :: 0 <= i < |r.words| ==> r.words[i] < 0x1_0000
  }

  function PrintWord(w: nat): (s: seq<byte>)
    requires w < 0x1_0000
    ensures |s| == 2 && Word(s[0], s[1]) == w
  {
    [w / 256, w % 256]
  }

  function PrintWords(ws: seq<nat>): (s: seq<byte>)
    requires forall i :: 0 <= i < |ws| ==> ws[i] < 0x1_0000
    ensures |s| == 2 * |ws|
  {
    if ws == [] then [] else PrintWord(ws[0]) + PrintWords(ws[1..])
  }

  function PrintRecord(r: Record): (s: seq<byte>)
    requires Printable(r)
    ensures |s| == 5 + 2 * |r.words|
  {
    [r.kind] + PrintWord(2 * |r.words| % 0x1_0000 + r.oddBit) + PrintWord(r.addr) + PrintWords(r.words)
  }

  /** Records, and behind them the rest of a file. */
  function PrintRecords(rs: seq<Record>, tail: seq<byte>): seq<byte>
    requires forall i :: 0 <= i < |rs| ==> Printable(rs[i])
    decreases rs
  {
    if rs == [] then tail else PrintRecord(rs[0]) + PrintRecords(rs[1..], tail)
  }

  /** An execute record; its length field does not matter. */
  function PrintExecute(addr: nat, length: nat): seq<byte>
    requires addr < 0x1_0000 && length < 0x1_0000
  {
    [3] + PrintWord(length) + PrintWord(addr)
  }

  function WordWrites(ws: seq<nat>): (r: seq<Write>)
    ensures |r| == |ws|
  {
    seq(|ws|, i requires 0 <= i < |ws| => Wram(ws[i]))
  }

  /**
   The writes that a record asks for: its address, 0x8000 on for type 0, as it is for type 1 and 0x4000 on for type 2,
   in 16 bits; then each word.
   */
  function WritesOf(r: Record): seq<Write>
    requires Printable(r)
  {
    [WramAddr(match r.kind case 0 => (r.addr + 0x8000) % 0x1_0000 case 1 => r.addr case _ => (r.addr + 0x4000) % 0x1_0000)]
    + WordWrites(r.words)
  }

  /** The writes that records ask for, in order. */
  function RecordWrites(rs: seq<Record>): seq<Write>
    requires forall i :: 0 <= i < |rs| ==> Printable(rs[i])
  {
    if rs == [] then [] else WritesOf(rs[0]) + RecordWrites(rs[1..])
  }

  lemma {:induction false} WordsLoaded(ws: seq<nat>, tail: seq<byte>)
    requires forall i :: 0 <= i < |ws| ==> ws[i] < 0x1_0000
    ensures DataWords(PrintWords(ws) + tail, |ws|) == (WordWrites(ws), true)
  {
    if ws != [] {
      var s := PrintWords(ws) + tail;
      assert s[2..] == PrintWords(ws[1..]) + tail;
      WordsLoaded(ws[1..], tail);
      assert WordWrites(ws) == [Wram(ws[0])] + WordWrites(ws[1..]);
    }
  }

  lemma LengthLoaded(n: nat, oddBit: nat)
    requires 1 <= n <= 0x8000 && oddBit < 2
    ensures 2 * n % 0x1_0000 + oddBit < 0x1_0000
    ensures var s := PrintWord(2 * n % 0x1_0000 + oddBit); WordCount(LengthWord(s[0], s[1])) == n
  {}

  lemma AddressWritten(r: Record)
    requires Printable(r)
    ensures WritesOf(r) == [WramAddr((r.addr + Offset(r.kind)) % 0x1_0000)] + WordWrites(r.words)
  {}

  lemma RecordLoaded(r: Record, tail: seq<byte>)
    requires Printable(r)
    ensures var (result, rest) := LoadRecords(tail);
            LoadRecords(PrintRecord(r) + tail)
            == (result, WritesOf(r) + rest)
  {
    LengthLoaded(|r.words|, r.oddBit);
    RecordLayout(r, tail);
    WordsLoaded(r.words, tail);
    AddressWritten(r);
  }

  /** Where the parts of a printed record are. */
  lemma RecordLayout(r: Record, tail: seq<byte>)
    requires Printable(r)
    ensures var s := PrintRecord(r) + tail;
            var len, addr := PrintWord(2 * |r.words| % 0x1_0000 + r.oddBit), PrintWord(r.addr);
            && |s| == 5 + 2 * |r.words| + |tail| && s[0] == r.kind
            && s[1] == len[0] && s[2] == len[1] && s[3] == addr[0] && s[4] == addr[1]
            && s[5..] == PrintWords(r.words) + tail && s[5 + 2 * |r.words|..] == tail
  {
    var s := PrintRecord(r) + tail;
    var len := PrintWord(2 * |r.words| % 0x1_0000 + r.oddBit);
    assert s == [r.kind] + len + PrintWord(r.addr) + (PrintWords(r.words) + tail);
    assert s[5..] == PrintWords(r.words) + tail;
    assert s[5 + 2 * |r.words|..] == s[5..][2 * |r.words|..];
  }

  lemma {:induction false} RecordsLoaded(rs: seq<Record>, tail: seq<byte>)
    requires forall i :: 0 <= i < |rs| ==> Printable(rs[i])
    ensures var (result, rest) := LoadRecords(tail);
            LoadRecords(PrintRecords(rs, tail)) == (result, RecordWrites(rs) + rest)
    decreases rs
  {
    var (result, rest) := LoadRecords(tail);
    if rs == [] {
      assert RecordWrites(rs) + rest == rest;
    } else {
      RecordsLoaded(rs[1..], tail);
      RecordLoaded(rs[0], PrintRecords(rs[1..], tail));
      WritesJoin(rs, rest);
    }
  }

  lemma WritesJoin(rs: seq<Record>, rest: seq<Write>)
    requires rs != [] && forall i :: 0 <= i < |rs| ==> Printable(rs[i])
    ensures WritesOf(rs[0]) + (RecordWrites(rs[1..]) + rest) == RecordWrites(rs) + rest
  {}

  lemma ExecuteLoaded(addr: nat, length: nat, tail: seq<byte>)
    requires addr < 0x1_0000 && length < 0x1_0000
    ensures LoadRecords(PrintExecute(addr, length) + tail) == (Returned(addr), [])
  {
    var s := PrintExecute(addr, length) + tail;
    assert s[3] == PrintWord(addr)[0] && s[4] == PrintWord(addr)[1];
  }

  lemma LoadBehindMagic(body: seq<byte>)
    ensures Load(MAGIC + body) == LoadRecords(body)
  {
    assert (MAGIC + body)[..3] == MAGIC && (MAGIC + body)[3..] == body;
  }

  /**
   The loader inverts the printer: for any records and an execute record behind them, it writes exactly the
   records' addresses and words in order and returns the execute address, whatever follows in the file.
   */
  lemma PluginLoaded(rs: seq<Record>, addr: nat, length: nat, tail: seq<byte>)
    requires (forall i :: 0 <= i < |rs| ==> Printable(rs[i])) && addr < 0x1_0000 && length < 0x1_0000
    ensures Load(MAGIC + PrintRecords(rs, PrintExecute(addr, length) + tail)) == (Returned(addr), RecordWrites(rs))
  {
    var rest := PrintExecute(addr, length) + tail;
    ExecuteLoaded(addr, length, tail);
    RecordsLoaded(rs, rest);
    LoadBehindMagic(PrintRecords(rs, rest));
    assert RecordWrites(rs) + [] == RecordWrites(rs);
  }

  /** Without an execute record the same writes are made and no address is returned. */
  lemma PluginWithoutExecute(rs: seq<Record>)
    requires forall i :: 0 <= i < |rs| ==> Printable(rs[i])
    ensures Load(MAGIC + PrintRecords(rs, [])) == (Returned(0xFFFF), RecordWrites(rs))
  {
    RecordsLoaded(rs, []);
    LoadBehindMagic(PrintRecords(rs, []));
    assert RecordWrites(rs) + [] == RecordWrites(rs);
  }

  // ---------------------------------------------------------------- files that were not printed

  /** A record of unknown type ends the loading; the records before it have been written. */
  lemma UnknownTypeEnds(rs: seq<Record>, kind: byte, tail: seq<byte>)
    requires (forall i :: 0 <= i < |rs| ==> Printable(rs[i])) && kind >= 4
    ensures Load(MAGIC + PrintRecords(rs, [kind] + tail)) == (Returned(0xFFFF), RecordWrites(rs))
  {
    RecordsLoaded(rs, [kind] + tail);
    LoadBehindMagic(PrintRecords(rs, [kind] + tail));
    assert RecordWrites(rs) + [] == RecordWrites(rs);
  }

  /** A file that does not begin with "P&H" is no plugin, and nothing is written. */
  lemma NotAPlugin(file: seq<byte>)
    requires |file| < 3 || file[0] != 80 || file[1] != 38 || file[2] != 72
    ensures Load(file) == (Returned(0xFFFF), [])
  {
    if |file| >= 3 {
      assert file[..3][0] == file[0] && file[..3][1] == file[1] && file[..3][2] == file[2];
    }
  }

  /** A file that ends inside a record is read on behind its end; the words it holds have been written. */
  lemma TruncatedRecord(r: Record, n: nat)
    requires Printable(r) && 0 < n < |PrintRecord(r)|
    ensures var (result, writes) := LoadRecords(PrintRecord(r)[..n]);
            result == Overrun && writes == if n < 5 then [] else WritesOf(r)[..1 + (n - 5) / 2]
  {
    if n >= 5 {
      LengthLoaded(|r.words|, r.oddBit);
      CutLayout(r, n);
      WordsCut(r.words, n - 5, |r.words|);
      AddressWritten(r);
      CutWrites(r, (n - 5) / 2);
    } else {
      RecordLayout(r, []);
      assert PrintRecord(r) + [] == PrintRecord(r);
    }
  }

  lemma CutLayout(r: Record, n: nat)
    requires Printable(r) && 5 <= n < |PrintRecord(r)|
    ensures var s := PrintRecord(r)[..n];
            var len, addr := PrintWord(2 * |r.words| % 0x1_0000 + r.oddBit), PrintWord(r.addr);
            && s[0] == r.kind && s[1] == len[0] && s[2] == len[1] && s[3] == addr[0] && s[4] == addr[1]
            && s[5..] == PrintWords(r.words)[..n - 5]
  {
    RecordLayout(r, []);
    assert PrintRecord(r) + [] == PrintRecord(r) && PrintWords(r.words) + [] == PrintWords(r.words);
    assert PrintRecord(r)[..n][5..] == PrintRecord(r)[5..][..n - 5];
  }

  lemma CutWrites(r: Record, k: nat)
    requires Printable(r) && k <= |r.words|
    ensures WritesOf(r)[..1 + k] == WritesOf(r)[..1] + WordWrites(r.words)[..k]
  {}

  lemma {:induction false} WordsCut(ws: seq<nat>, n: nat, count: nat)
    requires (forall i :: 0 <= i < |ws| ==> ws[i] < 0x1_0000) && n < 2 * |ws| && count == |ws|
    ensures DataWords(PrintWords(ws)[..n], count) == (WordWrites(ws)[..n / 2], false)
    decreases ws
  {
    if n >= 2 {
      var s := PrintWords(ws)[..n];
      assert s[2..] == PrintWords(ws[1..])[..n - 2] && s[0] == PrintWord(ws[0])[0] && s[1] == PrintWord(ws[0])[1];
      WordsCut(ws[1..], n - 2, count - 1);
      assert WordWrites(ws)[..n / 2] == [Wram(ws[0])] + WordWrites(ws[1..])[..(n - 2) / 2];
    }
  }

  /** Words are stored with their most significant byte first. */
  lemma {:induction false} DataWordAt(s: seq<byte>, n: nat, k: nat)
    requires k < n && 2 * n <= |s|
    ensures |DataWords(s, n).0| == n && DataWords(s, n).0[k] == Wram(256 * (s[2 * k] as int) + s[2 * k + 1])
    decreases n
  {
    if k > 0 {
      DataWordAt(s[2..], n - 1, k - 1);
    } else if n > 1 {
      DataWordAt(s[2..], n - 1, 0);
    }
  }
}
