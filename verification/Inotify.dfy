/** watchEventsFor: the loop that takes packed inotify records out of one read and queues the
    files that were closed after writing or moved in. Texts are byte strings here, as in Go. */
module Inotify {
  import opened Wrappers

  type Byte = b: int | 0 <= b < 256
  type Text = seq<Byte>

  const HEADER_SIZE := 16

  const IN_CLOSE_WRITE := 0x8
  const IN_MOVED_TO := 0x80
  const IN_CREATE := 0x100
  const IN_DELETE := 0x200
  const IN_ISDIR := 0x4000_0000

  const SLASH: Text := [47]
  const DIR_MARK: Text := [32, 40, 100, 105, 114, 41]

  /** mask & bit == bit, for a single bit. */
  predicate Has(mask: nat, bit: nat)
    requires bit > 0
  {
    (mask / bit) % 2 == 1
  }

  /** One record as the kernel means it; `pad` NUL bytes follow the name. */
  datatype Event = Event(wd: nat, mask: nat, cookie: nat, name: Text, pad: nat)

  predicate WellFormed(e: Event) {
    && e.wd < 0x1_0000_0000 && e.mask < 0x1_0000_0000 && e.cookie < 0x1_0000_0000
    && |e.name| + e.pad < 0x1_0000_0000
    && (e.name != [] ==> e.name[|e.name| - 1] != 0)
  }

  function Bytes32(n: nat): (b: seq<Byte>)
    requires n < 0x1_0000_0000
    ensures |b| == 4
  {
    [n % 256, n / 0x100 % 256, n / 0x1_0000 % 256, n / 0x100_0000]
  }

  function Word32(b: seq<Byte>): (n: nat)
    requires |b| == 4
    ensures n < 0x1_0000_0000
  {
    var w: seq<int> := b;
    w[0] + 0x100 * w[1] + 0x1_0000 * w[2] + 0x100_0000 * w[3]
  }

  lemma WordOfBytes(n: nat)
    requires n < 0x1_0000_0000
    ensures Word32(Bytes32(n)) == n
  {
    assert n == n % 256 + 256 * (n / 256);
    assert n / 256 == (n / 256) % 256 + 256 * (n / 0x1_0000);
    assert n / 0x1_0000 == (n / 0x1_0000) % 256 + 256 * (n / 0x100_0000);
  }

  function Zeros(k: nat): (z: seq<Byte>)
    ensures |z| == k && forall i :: 0 <= i < k ==> z[i] == 0
  {
    seq(k, _ => 0)
  }

  function Header(e: Event): (b: seq<Byte>)
    requires WellFormed(e)
    ensures |b| == HEADER_SIZE
  {
    Bytes32(e.wd) + Bytes32(e.mask) + Bytes32(e.cookie) + Bytes32(|e.name| + e.pad)
  }

  function Encode(e: Event): (b: seq<Byte>)
    requires WellFormed(e)
    ensures |b| == HEADER_SIZE + |e.name| + e.pad
  {
    Header(e) + e.name + Zeros(e.pad)
  }

  function EncodeAll(events: seq<Event>): seq<Byte>
    requires forall e <- events :: WellFormed(e)
  {
    if events == [] then [] else Encode(events[0]) + EncodeAll(events[1..])
  }

  function TrimNuls(b: Text): Text {
    if b != [] && b[|b| - 1] == 0 then TrimNuls(b[..|b| - 1]) else b
  }

  lemma {:induction false} TrimPadding(name: Text, pad: nat)
    requires name != [] ==> name[|name| - 1] != 0
    ensures TrimNuls(name + Zeros(pad)) == name
  {
    if pad == 0 {
      assert name + Zeros(pad) == name;
    } else {
      var b := name + Zeros(pad);
      assert b[..|b| - 1] == name + Zeros(pad - 1);
      TrimPadding(name, pad - 1);
    }
  }

  // ---- the decoder of the loop body ----

  datatype Record = Record(wd: nat, mask: nat, cookie: nat, name: Text)

  function RecordOf(e: Event): Record {
    Record(e.wd, e.mask, e.cookie, e.name)
  }

  /** What the body reads at an offset, and where the next record starts. */
  function DecodeAt(b: seq<Byte>, offset: nat): (r: Option<(Record, nat)>)
    ensures r.Some? ==> offset < r.value.1 <= |b|
  {
    if offset + HEADER_SIZE > |b| then None
    else
      var size := Word32(b[offset + 12..offset + 16]);
      if offset + HEADER_SIZE + size > |b| then None
      else
        Some((Record(Word32(b[offset..offset + 4]), Word32(b[offset + 4..offset + 8]),
            Word32(b[offset + 8..offset + 12]),
                     TrimNuls(b[offset + HEADER_SIZE..offset + HEADER_SIZE + size])),
              offset + HEADER_SIZE + size))
  }

  function DecodeAll(b: seq<Byte>, offset: nat): Option<seq<Record>>
    requires offset <= |b|
    decreases |b| - offset
  {
    if offset == |b| then Some([])
    else match DecodeAt(b, offset)
      case None => None
      case Some((r, next)) =>
        match DecodeAll(b, next)
        case None => None
        case Some(rest) => Some([r] + rest)
  }

  lemma SliceInside(before: seq<Byte>, mid: seq<Byte>, after: seq<Byte>, i: nat, j: nat)
    requires i <= j <= |mid|
    ensures (before + mid + after)[|before| + i..|before| + j] == mid[i..j]
  {
  }

  lemma Fields(e: Event)
    requires WellFormed(e)
    ensures Encode(e)[0..4] == Bytes32(e.wd) && Encode(e)[4..8] == Bytes32(e.mask)
    ensures Encode(e)[8..12] == Bytes32(e.cookie) && Encode(e)[12..16] == Bytes32(|e.name| + e.pad)
    ensures Encode(e)[16..|Encode(e)|] == e.name + Zeros(e.pad)
  {
    hide Bytes32;
    var h := Header(e);
    assert Encode(e)[..16] == h;
    assert h[0..4] == Bytes32(e.wd) && h[4..8] == Bytes32(e.mask);
    assert h[8..12] == Bytes32(e.cookie) && h[12..16] == Bytes32(|e.name| + e.pad);
    assert Encode(e)[0..4] == h[0..4] && Encode(e)[4..8] == h[4..8];
    assert Encode(e)[8..12] == h[8..12] && Encode(e)[12..16] == h[12..16];
  }

  lemma DecodeOne(before: seq<Byte>, e: Event, after: seq<Byte>)
    requires WellFormed(e)
    ensures DecodeAt(before + Encode(e) + after, |before|) == Some((RecordOf(e), |before| + |Encode(e)|))
  {
    Fields(e);
    WordOfBytes(e.wd);
    WordOfBytes(e.mask);
    WordOfBytes(e.cookie);
    WordOfBytes(|e.name| + e.pad);
    TrimPadding(e.name, e.pad);
    var mid := Encode(e);
    SliceInside(before, mid, after, 0, 4);
    SliceInside(before, mid, after, 4, 8);
    SliceInside(before, mid, after, 8, 12);
    SliceInside(before, mid, after, 12, 16);
    SliceInside(before, mid, after, 16, |mid|);
    hide Encode, Bytes32, Word32, TrimNuls;
  }

  /** The decoder is a left inverse of the packing: every record, in order, to the last byte. */
  lemma {:induction false} DecodeOfEncode(before: seq<Byte>, events: seq<Event>)
    requires forall e <- events :: WellFormed(e)
    ensures var b := before + EncodeAll(events);
            && DecodeAll(b, |before|).Some? && |DecodeAll(b, |before|).value| == |events|
            && forall i :: 0 <= i < |events| ==> DecodeAll(b, |before|).value[i] == RecordOf(events[i])
    decreases |events|
  {
    hide DecodeAt, Encode;
    var b := before + EncodeAll(events);
    if events != [] {
      var e, rest := events[0], events[1..];
      DecodeOne(before, e, EncodeAll(rest));
      assert b == before + Encode(e) + EncodeAll(rest);
      DecodeOfEncode(before + Encode(e), rest);
      assert DecodeAll(b, |before|).value == [RecordOf(e)] + DecodeAll(b, |before| + |Encode(e)|).value;
    }
  }

  // ---- which events are queued ----

  datatype QueueEntry = QueueEntry(filePath: Text, dirPath: Text, regex: Text)

  /** The name the regex sees and the path is built from. */
  function Label(name: Text, mask: nat): Text {
    if name != [] && Has(mask, IN_ISDIR) then name + DIR_MARK else name
  }

  /** The first matching case of the switch decides: a create or delete bit shadows the rest. */
  predicate IsArrival(mask: nat) {
    !Has(mask, IN_CREATE) && !Has(mask, IN_DELETE) && (Has(mask, IN_CLOSE_WRITE) || Has(mask, IN_MOVED_TO))
  }

  function EntryOf(dir: Text, regex: Text, shown: Text): QueueEntry {
    QueueEntry(dir + SLASH + shown, dir, regex)
  }

  /** The in-order filter of the events by the regex and the kind of event. */
  function Arrivals(dir: Text, regex: Text, matches: Text -> bool, events: seq<Event>): seq<QueueEntry> {
    if events == [] then []
    else
      var e := events[|events| - 1];
      Arrivals(dir, regex, matches, events[..|events| - 1])
      + if IsArrival(e.mask) && matches(Label(e.name, e.mask)) then [EntryOf(dir, regex, Label(e.name, e.mask))] else []
  }

  lemma {:induction false} EncodeAllSplit(a: seq<Event>, b: seq<Event>)
    requires forall e <- a + b :: WellFormed(e)
    ensures (forall e <- a :: WellFormed(e)) && (forall e <- b :: WellFormed(e))
    ensures EncodeAll(a + b) == EncodeAll(a) + EncodeAll(b)
  {
    hide WellFormed, Encode;
    assert forall e <- a :: e in a + b;
    assert forall e <- b :: e in a + b;
    if a == [] {
      assert a + b == b;
    } else {
      assert (a + b)[1..] == a[1..] + b && (a + b)[0] == a[0];
      assert forall e <- a[1..] + b :: e in a + b;
      EncodeAllSplit(a[1..], b);
    }
  }

  /** At the start of record k the body decodes exactly record k. */
  lemma AtRecord(events: seq<Event>, k: nat)
    requires (forall e <- events :: WellFormed(e)) && k < |events|
    ensures forall e <- events[..k] :: WellFormed(e)
    ensures forall e <- events[..k + 1] :: WellFormed(e)
    ensures var b, o := EncodeAll(events), |EncodeAll(events[..k])|;
            && DecodeAt(b, o) == Some((RecordOf(events[k]), |EncodeAll(events[..k + 1])|))
            && o < |EncodeAll(events[..k + 1])| <= |b|
  {
    hide DecodeAt, Encode;
    var a, c := events[..k], events[k + 1..];
    assert events == a + ([events[k]] + c);
    assert events[..k + 1] == a + [events[k]];
    EncodeAllSplit(a, [events[k]] + c);
    EncodeAllSplit(a, [events[k]]);
    EncodeAllSplit([events[k]], c);
    assert [events[k]][1..] == [];
    assert EncodeAll([events[k]]) == Encode(events[k]);
    assert EncodeAll(events) == EncodeAll(a) + Encode(events[k]) + EncodeAll(c);
    DecodeOne(EncodeAll(a), events[k], EncodeAll(c));
  }

  lemma SliceOfRead(buff: array<Byte>, n: nat, i: nat, j: nat)
    requires i <= j <= n <= buff.Length
    ensures buff[..n][i..j] == buff[i..j]
  {
  }

  lemma DecodedFields(b: seq<Byte>, offset: nat)
    requires DecodeAt(b, offset).Some?
    ensures offset + HEADER_SIZE <= |b|
    ensures var size := Word32(b[offset + 12..offset + 16]);
            && offset + HEADER_SIZE + size <= |b|
            && DecodeAt(b, offset).value.1 == offset + HEADER_SIZE + size
            && DecodeAt(b, offset).value.0.mask == Word32(b[offset + 4..offset + 8])
            && DecodeAt(b, offset).value.0.name == TrimNuls(b[offset + HEADER_SIZE..offset + HEADER_SIZE + size])
  {
    hide Word32, TrimNuls;
  }

  /** The reads of the loop body: header fields through a pointer cast, then the name. */
  method ReadRecord(buff: array<Byte>, n: nat, offset: nat) returns (mask: nat, size: nat, name: Text)
    requires n <= buff.Length && DecodeAt(buff[..n], offset).Some?
    ensures DecodeAt(buff[..n], offset).value.1 == offset + HEADER_SIZE + size
    ensures DecodeAt(buff[..n], offset).value.0.mask == mask
    ensures DecodeAt(buff[..n], offset).value.0.name == name
  {
    hide DecodeAt, Word32, TrimNuls;
    DecodedFields(buff[..n], offset);
    SliceOfRead(buff, n, offset + 4, offset + 8);
    SliceOfRead(buff, n, offset + 12, offset + 16);
    mask := Word32(buff[offset + 4..offset + 8]);
    size := Word32(buff[offset + 12..offset + 16]);
    SliceOfRead(buff, n, offset + HEADER_SIZE, offset + HEADER_SIZE + size);
    name := TrimNuls(buff[offset + HEADER_SIZE..offset + HEADER_SIZE + size]);
  }

  /** The switch of the loop body. */
  method Dispatch(dir: Text, regex: Text, name: Text, mask: nat, matched: bool) returns (sent: seq<QueueEntry>)
    ensures sent == if IsArrival(mask) && matched then [EntryOf(dir, regex, name)] else []
  {
    sent := [];
    if Has(mask, IN_CREATE) {
    } else if Has(mask, IN_DELETE) {
    } else if Has(mask, IN_CLOSE_WRITE) {
      if matched {
        sent := [QueueEntry(dir + SLASH + name, dir, regex)];
      }
    } else if Has(mask, IN_MOVED_TO) {
      if matched {
        sent := [QueueEntry(dir + SLASH + name, dir, regex)];
      }
    }
  }

  lemma Prefix(events: seq<Event>, k: nat)
    requires (forall e <- events :: WellFormed(e)) && k <= |events|
    ensures forall e <- events[..k] :: WellFormed(e)
    ensures |EncodeAll(events[..k])| <= |EncodeAll(events)|
    ensures |EncodeAll(events[..k])| == |EncodeAll(events)| <==> k == |events|
  {
    if k < |events| {
      AtRecord(events, k);
    } else {
      assert events[..k] == events;
    }
  }

  lemma EncodeNone()
    ensures EncodeAll([]) == []
  {
  }

  /** What a mask, a name and an entry come to, bit by bit: create is 0x100, delete 0x200, close after
      writing 0x8, moved in 0x80 and directory 0x4000_0000; the bytes of " (dir)" mark a directory and
      a slash parts it from its place. */
  lemma ArrivalBits(mask: nat, name: Text, dir: Text, regex: Text)
    ensures IsArrival(mask) <==>
              mask / 0x100 % 2 == 0 && mask / 0x200 % 2 == 0 && (mask / 0x8 % 2 == 1 || mask / 0x80 % 2 == 1)
    ensures name != [] && mask / 0x4000_0000 % 2 == 1 ==> Label(name, mask) == name + [32, 40, 100, 105, 114, 41]
    ensures name == [] || mask / 0x4000_0000 % 2 == 0 ==> Label(name, mask) == name
    ensures var entry := EntryOf(dir, regex, name);
            entry.filePath == dir + [47] + name && entry.dirPath == dir && entry.regex == regex
  {
  }

  /** The event arrives under a name that matches. */
  predicate Wanted(e: Event, matches: Text -> bool) {
    IsArrival(e.mask) && matches(Label(e.name, e.mask))
  }

  lemma ArrivalsStep(dir: Text, regex: Text, matches: Text -> bool, events: seq<Event>)
    requires events != []
    ensures var e := events[|events| - 1];
            Arrivals(dir, regex, matches, events)
            == Arrivals(dir, regex, matches, events[..|events| - 1])
               + if Wanted(e, matches) then [EntryOf(dir, regex, Label(e.name, e.mask))] else []
  {
    hide IsArrival, Label, EntryOf;
  }

  lemma OneMoreWanted(matches: Text -> bool, events: seq<Event>, n: nat)
    requires |events| == n + 1
    ensures |set i | 0 <= i < n + 1 && Wanted(events[i], matches)|
            == |set i | 0 <= i < n && Wanted(events[..n][i], matches)| + if Wanted(events[n], matches) then 1 else 0
  {
    hide Wanted;
    var was := set i | 0 <= i < n && Wanted(events[..n][i], matches);
    var now := set i | 0 <= i < n + 1 && Wanted(events[i], matches);
    forall i | 0 <= i < n ensures i in now <==> i in was {
      assert events[..n][i] == events[i];
    }
    if Wanted(events[n], matches) {
      assert now == was + {n};
    } else {
      assert now == was;
    }
  }

  lemma {:induction false} ArrivalsCount(dir: Text, regex: Text, matches: Text -> bool, events: seq<Event>)
    ensures |Arrivals(dir, regex, matches, events)| == |set i | 0 <= i < |events| && Wanted(events[i], matches)|
  {
    assert events == [] ==> Arrivals(dir, regex, matches, events) == [];
    hide Arrivals, Wanted, EntryOf, Label;
    if events != [] {
      ArrivalsStep(dir, regex, matches, events);
      ArrivalsCount(dir, regex, matches, events[..|events| - 1]);
      OneMoreWanted(matches, events, |events| - 1);
    }
  }

  lemma {:induction false} ArrivalsPrefix(dir: Text, regex: Text, matches: Text -> bool, events: seq<Event>, j: nat)
    requires j <= |events|
    ensures Arrivals(dir, regex, matches, events[..j]) <= Arrivals(dir, regex, matches, events)
  {
    hide Arrivals, Wanted, EntryOf, Label;
    if j < |events| {
      var n := |events| - 1;
      ArrivalsStep(dir, regex, matches, events);
      ArrivalsPrefix(dir, regex, matches, events[..n], j);
      assert events[..n][..j] == events[..j];
    } else {
      assert events[..j] == events;
    }
  }

  /** One entry for each wanted event and no other: that of event j stands behind as many as were
      wanted before it. */
  lemma ArrivalsInOrder(dir: Text, regex: Text, matches: Text -> bool, events: seq<Event>, j: nat)
    requires j < |events| && Wanted(events[j], matches)
    ensures var sent := Arrivals(dir, regex, matches, events);
            var before := |set i | 0 <= i < j && Wanted(events[i], matches)|;
            && |sent| == |set i | 0 <= i < |events| && Wanted(events[i], matches)|
            && before < |sent|
            && sent[before] == EntryOf(dir, regex, Label(events[j].name, events[j].mask))
  {
    hide Arrivals, Wanted, EntryOf, Label;
    ArrivalsCount(dir, regex, matches, events);
    ArrivalsCount(dir, regex, matches, events[..j]);
    assert (set i | 0 <= i < |events[..j]| && Wanted(events[..j][i], matches))
        == set i | 0 <= i < j && Wanted(events[i], matches);
    ArrivalsPrefix(dir, regex, matches, events, j + 1);
    ArrivalsStep(dir, regex, matches, events[..j + 1]);
    assert events[..j + 1][..j] == events[..j];
  }

  /** The kernel's layout, byte by byte: four little-endian words, then the name and its NULs. */
  lemma EncodedLayout(e: Event)
    requires WellFormed(e)
    ensures var b := Encode(e);
            && |b| == 16 + |e.name| + e.pad
            && b[0] as int + 0x100 * b[1] as int + 0x1_0000 * b[2] as int + 0x100_0000 * b[3] as int == e.wd
            && b[4] as int + 0x100 * b[5] as int + 0x1_0000 * b[6] as int + 0x100_0000 * b[7] as int == e.mask
            && b[8] as int + 0x100 * b[9] as int + 0x1_0000 * b[10] as int + 0x100_0000 * b[11] as int == e.cookie
            && b[12] as int + 0x100 * b[13] as int + 0x1_0000 * b[14] as int + 0x100_0000 * b[15] as int
               == |e.name| + e.pad
            && b[16..16 + |e.name|] == e.name
            && forall i :: 16 + |e.name| <= i < |b| ==> b[i] == 0
  {
    Fields(e);
    WordAt(Encode(e), 0, e.wd);
    WordAt(Encode(e), 4, e.mask);
    WordAt(Encode(e), 8, e.cookie);
    WordAt(Encode(e), 12, |e.name| + e.pad);
    hide Bytes32, Encode;
    var b := Encode(e);
    assert forall i :: 16 <= i < |b| ==> b[i] == b[16..|b|][i - 16];
  }

  lemma WordAt(b: seq<Byte>, at: nat, n: nat)
    requires n < 0x1_0000_0000 && at + 4 <= |b| && b[at..at + 4] == Bytes32(n)
    ensures b[at] as int + 0x100 * b[at + 1] as int + 0x1_0000 * b[at + 2] as int + 0x100_0000 * b[at + 3] as int == n
  {
    WordOfBytes(n);
    assert b[at..at + 4][0] == b[at] && b[at..at + 4][1] == b[at + 1];
    assert b[at..at + 4][2] == b[at + 2] && b[at..at + 4][3] == b[at + 3];
    hide Bytes32;
  }

  /** One read of n bytes. The kernel contract is the precondition: a read returns whole records.
      A regex that does not compile ends the watcher at its first event. */
  method HandleRead(buff: array<Byte>, n: nat, dir: Text, regex: Text, compiled: Option<Text -> bool>,
                    ghost events: seq<Event>)
    returns (sent: seq<QueueEntry>, running: bool)
    requires n <= buff.Length && forall e <- events :: WellFormed(e)
    requires buff[..n] == EncodeAll(events)
    ensures running <==> compiled.Some? || events == []
    ensures sent == if compiled.Some? then Arrivals(dir, regex, compiled.value, events) else []
  {
    hide DecodeAt, EncodeAll, IsArrival, Has;
    sent, running := [], true;
    var offset := 0;
    ghost var k := 0;
    Prefix(events, 0);
    EncodeNone();
    assert events[..0] == [];
    while offset < n
      invariant k <= |events| && (forall e <- events[..k] :: WellFormed(e)) && offset == |EncodeAll(events[..k])| <= n
      invariant compiled.Some? ==> sent == Arrivals(dir, regex, compiled.value, events[..k])
      invariant compiled.None? ==> k == 0 && sent == []
      decreases n - offset
    {
      Prefix(events, k);
      AtRecord(events, k);
      var mask, size, name := ReadRecord(buff, n, offset);
      if |name| > 0 && Has(mask, IN_ISDIR) {
        name := name + DIR_MARK;
      }
      if compiled.None? {
        return sent, false;
      }
      var found := Dispatch(dir, regex, name, mask, compiled.value(name));
      sent := sent + found;
      assert events[..k + 1][..k] == events[..k];
      offset := offset + HEADER_SIZE + size;
      k := k + 1;
    }
    Prefix(events, k);
    assert events[..k] == events;
  }
}
