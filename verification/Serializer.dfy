// The tagged serializer of dpss/core/serializer.py and its parser.
module Serializer {
  import opened Options

  type byte = x: nat | x < 256
  type Bytes = seq<byte>

  /** The element classes with a fixed-size state. */
  datatype Kind = G1 | ZR | CurveG | CurveZR {
    function Tag(): byte {
      match this
      case G1 => 5
      case ZR => 6
      case CurveG => 7
      case CurveZR => 8
    }

    function Size(): nat { if this.G1? then 48 else 32 }
  }

  /** What is serialized; an element is represented by its state and any other object by its dump. */
  datatype Item =
    | ListItem(entries: seq<Item>)
    | TupleItem(entries: seq<Item>)
    | Raw(data: Bytes)
    | Element(kind: Kind, state: Bytes)
    | Misc(dump: Bytes)
  {
    /** Every element's state has the size of its class. */
    predicate Valid() {
      match this
      case ListItem(es) => forall e :: e in es ==> e.Valid()
      case TupleItem(es) => forall e :: e in es ==> e.Valid()
      case Element(k, state) => |state| == k.Size()
      case _ => true
    }
  }

  const LIST_START: byte := 1
  const LIST_END: byte := 2
  const TUPLE_START: byte := 3
  const TUPLE_END: byte := 4
  const RAW: byte := 9
  const MISC: byte := 0x99

  // ---------------------------------------------------------------- the length code

  /** Base-255 with continuation bytes 255. */
  function LenBytes(length: nat): (r: Bytes)
    ensures r != []
  {
    if length < 255 then [length] else [255] + LenBytes(length - 255)
  }

  /** `bytes_to_len`: the length and the position after it, or an index error. */
  function ReadLen(s: Bytes, seek: nat): (r: Option<(nat, nat)>)
    ensures r.Some? ==> seek < r.value.1 <= |s|
    decreases |s| - seek
  {
    if seek >= |s| then None
    else if s[seek] == 255 then
      match ReadLen(s, seek + 1)
      case None => None
      case Some((length, next)) => Some((length + 255, next))
    else Some((s[seek], seek + 1))
  }

  /** The text t stands at position seek. */
  predicate At(s: Bytes, seek: nat, t: Bytes) { seek + |t| <= |s| && s[seek .. seek + |t|] == t }

  lemma AtParts(s: Bytes, seek: nat, t: Bytes, u: Bytes)
    requires At(s, seek, t + u)
    ensures At(s, seek, t) && At(s, seek + |t|, u)
  {
    assert s[seek .. seek + |t|] == s[seek .. seek + |t + u|][..|t|];
    assert s[seek + |t| .. seek + |t| + |u|] == s[seek .. seek + |t + u|][|t|..];
  }

  /** The length code delimits itself: whatever follows, reading stops at its end with the length written. */
  lemma {:induction false} LenRoundTrip(s: Bytes, seek: nat, length: nat)
    requires At(s, seek, LenBytes(length))
    ensures ReadLen(s, seek) == Some((length, seek + |LenBytes(length)|))
    decreases length
  {
    if length < 255 {
      assert s[seek] == s[seek .. seek + 1][0];
    } else {
      AtParts(s, seek, [255], LenBytes(length - 255));
      assert s[seek] == s[seek .. seek + 1][0];
      LenRoundTrip(s, seek + 1, length - 255);
    }
  }

  /** `len_to_bytes`. */
  method LenToBytes(n: nat) returns (output: Bytes)
    ensures output == LenBytes(n)
  {
    if n < 255 { return [n]; }
    var length := n;
    output := [];
    while length >= 255
      invariant 0 <= length <= n && output + LenBytes(length) == LenBytes(n)
    {
      length := length - 255;
      assert output + ([255] + LenBytes(length)) == (output + [255]) + LenBytes(length);
      output := output + [255];
    }
    output := output + [length];
  }

  /** `bytes_to_len`. */
  method BytesToLen(s: Bytes, start: nat) returns (r: Option<(nat, nat)>)
    ensures r == ReadLen(s, start)
  {
    var length, seek := 0, start;
    while seek < |s| && s[seek] == 255
      invariant start <= seek
      invariant ReadLen(s, start)
                == match ReadLen(s, seek) case None => None case Some((n, next)) => Some((length + n, next))
      decreases |s| - seek
    {
      length := length + 255;
      seek := seek + 1;
    }
    if seek >= |s| { return None; }
    return Some((length + s[seek], seek + 1));
  }

  // ---------------------------------------------------------------- printing

  function Serialize(item: Item): (r: Bytes)
    requires item.Valid()
    ensures r != []
  {
    match item
    case ListItem(es) => [LIST_START] + SerializeAll(es) + [LIST_END]
    case TupleItem(es) => [TUPLE_START] + SerializeAll(es) + [TUPLE_END]
    case Raw(data) => [RAW] + LenBytes(|data|) + data
    case Element(k, state) => [k.Tag()] + state
    case Misc(dump) => [MISC] + LenBytes(|dump|) + dump
  }

  function SerializeAll(es: seq<Item>): Bytes
    requires forall e :: e in es ==> e.Valid()
  {
    if es == [] then [] else Serialize(es[0]) + SerializeAll(es[1..])
  }

  // ---------------------------------------------------------------- parsing

  /** Python's slice, which stops at the end of the text. */
  function Slice(s: Bytes, from: nat, to: nat): Bytes {
    if from >= |s| || to <= from then [] else s[from .. if to <= |s| then to else |s|]
  }

  function KindOf(tag: byte): Option<Kind> {
    if tag == 5 then Some(G1) else if tag == 6 then Some(ZR) else if tag == 7 then Some(CurveG)
    else if tag == 8 then Some(CurveZR) else None
  }

  /** `deserialize_item`: the position after the item and the item, or an error. */
  function ParseItem(s: Bytes, seek: nat): (r: Option<(nat, Item)>)
    ensures r.Some? ==> seek < r.value.0
    decreases |s| - seek, 0
  {
    if seek >= |s| then None
    else if s[seek] == LIST_START then ParseIter(s, seek + 1, [], false)
    else if s[seek] == TUPLE_START then ParseIter(s, seek + 1, [], true)
    else if s[seek] == RAW || s[seek] == MISC then
      match ReadLen(s, seek + 1)
      case None => None
      case Some((size, at)) =>
        var data := Slice(s, at, at + size);
        Some((at + size, if s[seek] == RAW then Raw(data) else Misc(data)))
    else
      match KindOf(s[seek])
      case None => None
      case Some(k) =>
        var state := Slice(s, seek + 1, seek + 1 + k.Size());
        if |state| == k.Size() then Some((seek + 1 + k.Size(), Element(k, state))) else None
  }

  /** `deserialize_iter`: entries until an end tag of either sort; the start tag decided between list and tuple. */
  function ParseIter(s: Bytes, seek: nat, output: seq<Item>, tuple: bool): (r: Option<(nat, Item)>)
    ensures r.Some? ==> seek < r.value.0
    decreases |s| - seek, 1
  {
    if seek >= |s| then None
    else if s[seek] == LIST_END || s[seek] == TUPLE_END then
      Some((seek + 1, if tuple then TupleItem(output) else ListItem(output)))
    else
      match ParseItem(s, seek)
      case None => None
      case Some((next, item)) => ParseIter(s, next, output + [item], tuple)
  }

  /** Parsing undoes printing, whatever follows the text, and stops exactly at its end. */
  lemma {:induction false} RoundTrip(item: Item, s: Bytes, seek: nat)
    requires item.Valid() && At(s, seek, Serialize(item))
    ensures ParseItem(s, seek) == Some((seek + |Serialize(item)|, item))
    decreases item, 0
  {
    hide At, LenBytes, ReadLen, Slice;
    match item
    case ListItem(es) =>
      Bracketed(s, seek, LIST_START, SerializeAll(es), LIST_END);
      IterRoundTrip(item, es, [], s, seek + 1, false, LIST_END);
      assert [] + es == es;
    case TupleItem(es) =>
      Bracketed(s, seek, TUPLE_START, SerializeAll(es), TUPLE_END);
      IterRoundTrip(item, es, [], s, seek + 1, true, TUPLE_END);
      assert [] + es == es;
    case _ => LeafRoundTrip(item, s, seek);
  }

  lemma LeafRoundTrip(item: Item, s: Bytes, seek: nat)
    requires item.Valid() && !item.ListItem? && !item.TupleItem? && At(s, seek, Serialize(item))
    ensures ParseItem(s, seek) == Some((seek + |Serialize(item)|, item))
  {
    hide At, LenBytes, ReadLen, Slice;
    match item
    case Raw(data) =>
      SizedRoundTrip(s, seek, RAW, data);
    case Misc(dump) =>
      SizedRoundTrip(s, seek, MISC, dump);
    case Element(k, state) =>
      AtParts(s, seek, [k.Tag()], state);
      FirstOf(s, seek, k.Tag());
      SliceAt(s, seek + 1, state);
  }

  lemma Bracketed(s: Bytes, seek: nat, start: byte, body: Bytes, end: byte)
    requires At(s, seek, [start] + body + [end])
    ensures s[seek] == start && At(s, seek + 1, body + [end])
  {
    assert [start] + body + [end] == [start] + (body + [end]);
    AtParts(s, seek, [start], body + [end]);
    assert s[seek] == s[seek .. seek + 1][0];
  }

  lemma SizedRoundTrip(s: Bytes, seek: nat, tag: byte, data: Bytes)
    requires At(s, seek, [tag] + LenBytes(|data|) + data)
    ensures s[seek] == tag && ReadLen(s, seek + 1) == Some((|data|, seek + 1 + |LenBytes(|data|)|))
    ensures Slice(s, seek + 1 + |LenBytes(|data|)|, seek + 1 + |LenBytes(|data|)| + |data|) == data
  {
    hide *;
    AtParts(s, seek, [tag] + LenBytes(|data|), data);
    AtParts(s, seek, [tag], LenBytes(|data|));
    FirstOf(s, seek, tag);
    LenRoundTrip(s, seek + 1, |data|);
    SliceAt(s, seek + 1 + |LenBytes(|data|)|, data);
  }

  lemma FirstOf(s: Bytes, seek: nat, tag: byte)
    requires At(s, seek, [tag])
    ensures s[seek] == tag
  {
    assert s[seek] == s[seek .. seek + 1][0];
  }

  lemma SliceAt(s: Bytes, at: nat, data: Bytes)
    requires At(s, at, data)
    ensures Slice(s, at, at + |data|) == data
  {
  }

  lemma {:induction false} IterRoundTrip(whole: Item, es: seq<Item>, output: seq<Item>, s: Bytes, seek: nat,
          tuple: bool, end: byte)
    requires (forall e :: e in es ==> e.Valid() && e < whole) && (end == LIST_END || end == TUPLE_END)
    requires At(s, seek, SerializeAll(es) + [end])
    ensures ParseIter(s, seek, output, tuple)
            == Some((seek + |SerializeAll(es)| + 1, if tuple then TupleItem(output + es) else ListItem(output + es)))
    decreases whole, 0, |es|
  {
    hide Serialize, ParseItem, At;
    if es == [] {
      EndOfIter(s, seek, output, tuple, end);
      assert output + es == output;
    } else {
      var first, rest := Serialize(es[0]), SerializeAll(es[1..]);
      FirstEntry(s, seek, first, rest, end);
      RoundTrip(es[0], s, seek);
      NotEndTag(es[0]);
      IterRoundTrip(whole, es[1..], output + [es[0]], s, seek + |first|, tuple, end);
      assert output + es == output + [es[0]] + es[1..];
    }
  }

  lemma EndOfIter(s: Bytes, seek: nat, output: seq<Item>, tuple: bool, end: byte)
    requires (end == LIST_END || end == TUPLE_END) && At(s, seek, [] + [end])
    ensures ParseIter(s, seek, output, tuple) == Some((seek + 1, if tuple then TupleItem(output) else ListItem(output)))
  {
    assert [] + [end] == [end];
    FirstOf(s, seek, end);
  }

  lemma FirstEntry(s: Bytes, seek: nat, first: Bytes, rest: Bytes, end: byte)
    requires first != [] && At(s, seek, first + rest + [end])
    ensures At(s, seek, first) && At(s, seek + |first|, rest + [end]) && seek < |s| && s[seek] == first[0]
  {
    assert first + rest + [end] == first + (rest + [end]);
    AtParts(s, seek, first, rest + [end]);
    assert s[seek] == s[seek .. seek + |first|][0];
  }

  /** No item starts like the end of a list. */
  lemma NotEndTag(item: Item)
    requires item.Valid()
    ensures Serialize(item)[0] != LIST_END && Serialize(item)[0] != TUPLE_END
  {
  }

  // ---------------------------------------------------------------- which parsed texts were printed

  /** What the parser does not look at: every list and tuple is closed by its own end tag, and every sized piece ends
      inside the text. */
  predicate ItemOk(s: Bytes, seek: nat)
    decreases |s| - seek, 0
  {
    seek < |s| &&
    if s[seek] == LIST_START then IterOk(s, seek + 1, LIST_END)
    else if s[seek] == TUPLE_START then IterOk(s, seek + 1, TUPLE_END)
    else s[seek] == RAW || s[seek] == MISC ==> SizedOk(s, seek + 1)
  }

  predicate SizedOk(s: Bytes, seek: nat) {
    match ReadLen(s, seek)
    case None => false
    case Some((size, at)) => at + size <= |s|
  }

  predicate IterOk(s: Bytes, seek: nat, end: byte)
    decreases |s| - seek, 1
  {
    seek < |s| &&
    if s[seek] == LIST_END || s[seek] == TUPLE_END then s[seek] == end
    else ItemOk(s, seek) && match ParseItem(s, seek) case None => false case Some((next, _)) => IterOk(s, next, end)
  }

  function EndTag(tuple: bool): byte { if tuple then TUPLE_END else LIST_END }

  function Collected(entries: seq<Item>, tuple: bool): Item {
    if tuple then TupleItem(entries) else ListItem(entries)
  }

  /** The text that was read as a length is the code of that length. */
  lemma {:induction false} ReadLenIsCode(s: Bytes, seek: nat, length: nat, next: nat)
    requires ReadLen(s, seek) == Some((length, next))
    ensures seek < next <= |s| && s[seek .. next] == LenBytes(length)
    decreases |s| - seek
  {
    if s[seek] == 255 {
      ReadLenIsCode(s, seek + 1, length - 255, next);
      assert s[seek .. next] == [s[seek]] + s[seek + 1 .. next];
    }
  }

  /** A parsed item is one that can be printed. */
  lemma {:induction false} ParsedValid(s: Bytes, seek: nat)
    requires ParseItem(s, seek).Some?
    ensures ParseItem(s, seek).value.1.Valid()
    decreases |s| - seek, 0
  {
    if s[seek] == LIST_START {
      IterValid(s, seek + 1, [], false);
    } else if s[seek] == TUPLE_START {
      IterValid(s, seek + 1, [], true);
    }
  }

  lemma {:induction false} IterValid(s: Bytes, seek: nat, output: seq<Item>, tuple: bool)
    requires ParseIter(s, seek, output, tuple).Some? && forall e :: e in output ==> e.Valid()
    ensures ParseIter(s, seek, output, tuple).value.1.Valid()
    decreases |s| - seek, 1
  {
    if s[seek] != LIST_END && s[seek] != TUPLE_END {
      ParsedValid(s, seek);
      var (next, item) := ParseItem(s, seek).value;
      IterValid(s, next, output + [item], tuple);
    }
  }

  lemma Joined(s: Bytes, from: nat, middle: nat, to: nat)
    requires from <= middle <= to <= |s|
    ensures s[from .. to] == s[from .. middle] + s[middle .. to]
  {
  }

  lemma FirstThenRest(s: Bytes, from: nat, to: nat)
    requires from < to <= |s|
    ensures s[from .. to] == [s[from]] + s[from + 1 .. to]
  {
  }

  /** A text that meets the condition is the printed form of what it parses to. */
  lemma {:induction false} OkIsPrinted(s: Bytes, seek: nat, next: nat, item: Item)
    requires ParseItem(s, seek) == Some((next, item)) && ItemOk(s, seek) && item.Valid()
    ensures next <= |s| && s[seek .. next] == Serialize(item)
    decreases |s| - seek, 0
  {
    hide Serialize, SerializeAll, Slice;
    if s[seek] == LIST_START || s[seek] == TUPLE_START {
      var tuple := s[seek] == TUPLE_START;
      var es := OkIter(s, seek + 1, next, [], tuple, item);
      WholeIsPrinted(s, seek, next, es, tuple);
      assert [] + es == es;
    } else {
      OkLeafIsPrinted(s, seek, next, item);
    }
  }

  lemma OkLeafIsPrinted(s: Bytes, seek: nat, next: nat, item: Item)
    requires ParseItem(s, seek) == Some((next, item)) && ItemOk(s, seek) && item.Valid()
    requires s[seek] != LIST_START && s[seek] != TUPLE_START
    ensures next <= |s| && s[seek .. next] == Serialize(item)
  {
    hide ReadLen, LenBytes, Slice;
    if s[seek] == RAW || s[seek] == MISC {
      OkSizedIsPrinted(s, seek);
      SliceOfSize(s, seek, next, item);
    } else {
      OkElementIsPrinted(s, seek, next, KindOf(s[seek]).value);
    }
  }

  lemma SliceOfSize(s: Bytes, seek: nat, next: nat, item: Item)
    requires ParseItem(s, seek) == Some((next, item)) && (s[seek] == RAW || s[seek] == MISC) && next <= |s|
    requires var (size, at) := ReadLen(s, seek + 1).value;
             Slice(s, at, next) == s[at .. next] && s[seek .. next] == [s[seek]] + LenBytes(size) + s[at .. next]
    ensures s[seek .. next] == Serialize(item)
  {
    hide ReadLen, LenBytes, Slice;
    var (size, at) := ReadLen(s, seek + 1).value;
    assert |s[at .. next]| == size;
  }

  lemma OkElementIsPrinted(s: Bytes, seek: nat, next: nat, k: Kind)
    requires seek < |s| && s[seek] == k.Tag() && next == seek + 1 + k.Size()
             && |Slice(s, seek + 1, next)| == k.Size()
    ensures next <= |s| && s[seek .. next] == Serialize(Element(k, Slice(s, seek + 1, next)))
  {
    hide Slice;
    SliceLength(s, seek + 1, next);
    FirstThenRest(s, seek, next);
  }

  /** A slice has the full length exactly when it ends inside the text. */
  lemma SliceLength(s: Bytes, from: nat, to: nat)
    requires from <= to
    ensures from < to ==> (|Slice(s, from, to)| == to - from <==> to <= |s|)
    ensures to <= |s| ==> Slice(s, from, to) == s[from .. to]
  {
  }

  lemma WholeIsPrinted(s: Bytes, seek: nat, next: nat, es: seq<Item>, tuple: bool)
    requires seek < next <= |s| && s[seek] == (if tuple then TUPLE_START else LIST_START)
    requires (forall e :: e in es ==> e.Valid()) && s[seek + 1 .. next] == SerializeAll(es) + [EndTag(tuple)]
    ensures s[seek .. next] == Serialize(Collected(es, tuple))
  {
    hide SerializeAll;
    FirstThenRest(s, seek, next);
    var body, end := SerializeAll(es), EndTag(tuple);
    assert [s[seek]] + (body + [end]) == [s[seek]] + body + [end];
  }

  lemma OkSizedIsPrinted(s: Bytes, seek: nat)
    requires seek < |s| && SizedOk(s, seek + 1)
    ensures var (size, at) := ReadLen(s, seek + 1).value;
            at + size <= |s| && Slice(s, at, at + size) == s[at .. at + size]
            && s[seek .. at + size] == [s[seek]] + LenBytes(size) + s[at .. at + size]
  {
    hide ReadLen, LenBytes;
    var (size, at) := ReadLen(s, seek + 1).value;
    ReadLenIsCode(s, seek + 1, size, at);
    ThreeParts(s, seek, at, at + size, LenBytes(size));
    SliceLength(s, at, at + size);
  }

  lemma ThreeParts(s: Bytes, seek: nat, at: nat, to: nat, code: Bytes)
    requires seek < at <= to <= |s| && s[seek + 1 .. at] == code
    ensures s[seek .. to] == [s[seek]] + code + s[at .. to]
  {
    Joined(s, seek, at, to);
    FirstThenRest(s, seek, at);
  }

  /** The entries that are still to come, for a text that meets the condition. */
  lemma {:induction false} OkIter(s: Bytes, seek: nat, next: nat, output: seq<Item>, tuple: bool, item: Item)
      returns (es: seq<Item>)
    requires ParseIter(s, seek, output, tuple) == Some((next, item)) && IterOk(s, seek, EndTag(tuple)) && item.Valid()
    ensures item == Collected(output + es, tuple) && (forall e :: e in es ==> e.Valid())
    ensures next <= |s| && s[seek .. next] == SerializeAll(es) + [EndTag(tuple)]
    decreases |s| - seek, 1
  {
    hide ParseItem, ItemOk, Serialize;
    if s[seek] == LIST_END || s[seek] == TUPLE_END {
      es := [];
      assert output + es == output;
      assert s[seek .. next] == [] + [EndTag(tuple)];
    } else {
      var (middle, entry) := ParseItem(s, seek).value;
      ParsedValid(s, seek);
      OkIsPrinted(s, seek, middle, entry);
      var rest := OkIter(s, middle, next, output + [entry], tuple, item);
      es := [entry] + rest;
      assert output + [entry] + rest == output + es;
      EntryThenRest(s, seek, middle, next, entry, rest, [EndTag(tuple)]);
    }
  }

  lemma EntryThenRest(s: Bytes, seek: nat, middle: nat, next: nat, entry: Item, rest: seq<Item>, end: Bytes)
    requires seek < middle < next <= |s| && entry.Valid() && forall e :: e in rest ==> e.Valid()
    requires s[seek .. middle] == Serialize(entry) && s[middle .. next] == SerializeAll(rest) + end
    ensures s[seek .. next] == SerializeAll([entry] + rest) + end
  {
    Joined(s, seek, middle, next);
    FirstEntryFirst(entry, rest);
    hide *;
    assert Serialize(entry) + (SerializeAll(rest) + end) == Serialize(entry) + SerializeAll(rest) + end;
  }

  lemma FirstEntryFirst(entry: Item, rest: seq<Item>)
    requires entry.Valid() && forall e :: e in rest ==> e.Valid()
    ensures SerializeAll([entry] + rest) == Serialize(entry) + SerializeAll(rest)
  {
    assert ([entry] + rest)[1..] == rest;
  }

  /** A printed text meets the condition. */
  lemma {:induction false} PrintedIsOk(item: Item, s: Bytes, seek: nat)
    requires item.Valid() && At(s, seek, Serialize(item))
    ensures ItemOk(s, seek)
    decreases item, 0
  {
    hide At, LenBytes, ReadLen;
    match item
    case ListItem(es) =>
      Bracketed(s, seek, LIST_START, SerializeAll(es), LIST_END);
      IterPrintedIsOk(item, es, s, seek + 1, LIST_END);
    case TupleItem(es) =>
      Bracketed(s, seek, TUPLE_START, SerializeAll(es), TUPLE_END);
      IterPrintedIsOk(item, es, s, seek + 1, TUPLE_END);
    case Raw(data) => SizedPrintedIsOk(s, seek, RAW, data);
    case Misc(dump) => SizedPrintedIsOk(s, seek, MISC, dump);
    case Element(k, state) =>
      AtParts(s, seek, [k.Tag()], state);
      FirstOf(s, seek, k.Tag());
  }

  lemma InText(s: Bytes, seek: nat, t: Bytes)
    requires At(s, seek, t)
    ensures seek + |t| <= |s|
  {
  }

  lemma SizedPrintedIsOk(s: Bytes, seek: nat, tag: byte, data: Bytes)
    requires At(s, seek, [tag] + LenBytes(|data|) + data)
    ensures seek < |s| && s[seek] == tag && SizedOk(s, seek + 1)
  {
    SizedRoundTrip(s, seek, tag, data);
  }

  lemma {:induction false} IterPrintedIsOk(whole: Item, es: seq<Item>, s: Bytes, seek: nat, end: byte)
    requires (forall e :: e in es ==> e.Valid() && e < whole) && (end == LIST_END || end == TUPLE_END)
    requires At(s, seek, SerializeAll(es) + [end])
    ensures IterOk(s, seek, end)
    decreases whole, 0, |es|
  {
    hide Serialize, ParseItem, At;
    if es == [] {
      assert [] + [end] == [end];
      FirstOf(s, seek, end);
      InText(s, seek, [end]);
    } else {
      var first, rest := Serialize(es[0]), SerializeAll(es[1..]);
      FirstEntry(s, seek, first, rest, end);
      RoundTrip(es[0], s, seek);
      NotEndTag(es[0]);
      PrintedIsOk(es[0], s, seek);
      IterPrintedIsOk(whole, es[1..], s, seek + |first|, end);
    }
  }

  /** Whatever parses gives an item that can be printed; the text that was read is the printed form of that item exactly
      when the end tags fit and nothing is cut off. */
  lemma ParsedWasPrintedIff(s: Bytes, seek: nat, next: nat, item: Item)
    requires ParseItem(s, seek) == Some((next, item))
    ensures item.Valid()
    ensures ItemOk(s, seek) <==> next <= |s| && s[seek .. next] == Serialize(item)
  {
    ParsedValid(s, seek);
    if ItemOk(s, seek) {
      OkIsPrinted(s, seek, next, item);
    }
    if next <= |s| && s[seek .. next] == Serialize(item) {
      PrintedIsOk(item, s, seek);
    }
  }

  /** Two accepted texts that were not printed: a list closed by the end tag of a tuple, and a byte string cut short. */
  lemma NotPrinted(s: Bytes, t: Bytes)
    requires s == [1, 4] && t == [9, 5]
    ensures ParseItem(s, 0) == Some((2, ListItem([]))) && !ItemOk(s, 0)
    ensures ParseItem(t, 0) == Some((7, Raw([]))) && !ItemOk(t, 0)
    ensures Serialize(ListItem([])) == [1, 2] && Serialize(Raw([])) == [9, 0]
  {
    assert ReadLen(t, 1) == Some((5, 2));
    assert [LIST_START] + [] + [LIST_END] == [LIST_START, LIST_END];
  }

  /** The texts of items are prefix-free: equal texts with anything after them come from the same item. */
  lemma PrefixFree(x: Item, y: Item, u: Bytes, v: Bytes)
    requires x.Valid() && y.Valid() && Serialize(x) + u == Serialize(y) + v
    ensures x == y && u == v
  {
    var s := Serialize(x) + u;
    assert s[0 .. |Serialize(x)|] == Serialize(x) && s[0 .. |Serialize(y)|] == Serialize(y);
    RoundTrip(x, s, 0);
    RoundTrip(y, s, 0);
    assert s[|Serialize(x)|..] == u && s[|Serialize(y)|..] == v;
  }

  // ---------------------------------------------------------------- the wire format, byte by byte

  /** n / 255 bytes 255 and the remainder. */
  function LengthCode(n: nat): (r: Bytes)
    ensures |r| == n / 255 + 1
  {
    seq(n / 255, _ => 255) + [n % 255]
  }

  lemma {:induction false} LenBytesAre(n: nat)
    ensures LenBytes(n) == LengthCode(n)
  {
    if n >= 255 {
      LenBytesAre(n - 255);
      assert (n - 255) / 255 == n / 255 - 1 && (n - 255) % 255 == n % 255;
      assert seq(n / 255, _ => 255) == [255] + seq(n / 255 - 1, _ => 255);
    }
  }

  /** What is printed. */
  lemma WireFormat(item: Item)
    requires item.Valid()
    ensures match item
            case ListItem(es) => Serialize(item) == [1] + SerializeAll(es) + [2]
            case TupleItem(es) => Serialize(item) == [3] + SerializeAll(es) + [4]
            case Raw(data) => Serialize(item) == [9] + LengthCode(|data|) + data
            case Misc(dump) => Serialize(item) == [0x99] + LengthCode(|dump|) + dump
            case Element(G1, state) => Serialize(item) == [5] + state && |state| == 48
            case Element(ZR, state) => Serialize(item) == [6] + state && |state| == 32
            case Element(CurveG, state) => Serialize(item) == [7] + state && |state| == 32
            case Element(CurveZR, state) => Serialize(item) == [8] + state && |state| == 32
  {
    match item
    case Raw(data) => LenBytesAre(|data|);
    case Misc(dump) => LenBytesAre(|dump|);
    case _ =>
  }

  /** The first byte tells what a text parses to; no other first byte is accepted. */
  lemma FirstByteDecides(s: Bytes, seek: nat, next: nat, item: Item)
    requires ParseItem(s, seek) == Some((next, item))
    ensures seek < |s| && match item
                          case ListItem(_) => s[seek] == 1
                          case TupleItem(_) => s[seek] == 3
                          case Raw(_) => s[seek] == 9
                          case Misc(_) => s[seek] == 0x99
                          case Element(G1, state) => s[seek] == 5 && next == seek + 49
                          case Element(ZR, state) => s[seek] == 6 && next == seek + 33
                          case Element(CurveG, state) => s[seek] == 7 && next == seek + 33
                          case Element(CurveZR, state) => s[seek] == 8 && next == seek + 33
    ensures item.Element? ==> next <= |s| && item.state == s[seek + 1 .. next]
  {
    if s[seek] == 1 {
      IterKind(s, seek + 1, [], false);
    } else if s[seek] == 3 {
      IterKind(s, seek + 1, [], true);
    }
  }

  lemma {:induction false} IterKind(s: Bytes, seek: nat, output: seq<Item>, tuple: bool)
    requires ParseIter(s, seek, output, tuple).Some?
    ensures if tuple then ParseIter(s, seek, output, tuple).value.1.TupleItem?
            else ParseIter(s, seek, output, tuple).value.1.ListItem?
    decreases |s| - seek
  {
    hide ParseItem;
    if s[seek] != LIST_END && s[seek] != TUPLE_END {
      var (next, item) := ParseItem(s, seek).value;
      IterKind(s, next, output + [item], tuple);
    }
  }

  // ---------------------------------------------------------------- the procedures

  /** `serialize_item`. */
  method SerializeItem(item: Item) returns (r: Bytes)
    requires item.Valid()
    ensures r == Serialize(item)
    decreases item, 1
  {
    match item
    case ListItem(_) => r := SerializeIter(item);
    case TupleItem(_) => r := SerializeIter(item);
    case Raw(data) =>
      var sizeBytes := LenToBytes(|data|);
      r := [RAW] + sizeBytes + data;
    case Element(k, state) => r := [k.Tag()] + state;
    case Misc(dump) =>
      var sizeBytes := LenToBytes(|dump|);
      r := [MISC] + sizeBytes + dump;
  }

  /** `serialize_iter`. */
  method SerializeIter(item: Item) returns (r: Bytes)
    requires item.Valid() && (item.ListItem? || item.TupleItem?)
    ensures r == Serialize(item)
    decreases item, 0
  {
    var output: Bytes := [];
    for i := 0 to |item.entries|
      invariant output == SerializeAll(item.entries[..i])
    {
      var entry := item.entries[i];
      assert entry in item.entries && item.entries[i] < item;
      var text := SerializeItem(entry);
      SerializeAllSnoc(item.entries, i);
      output := output + text;
    }
    assert item.entries[..|item.entries|] == item.entries;
    r := if item.ListItem? then [LIST_START] + output + [LIST_END] else [TUPLE_START] + output + [TUPLE_END];
  }

  lemma {:induction false} SerializeAllSnoc(es: seq<Item>, i: nat)
    requires i < |es| && forall e :: e in es ==> e.Valid()
    ensures SerializeAll(es[..i + 1]) == SerializeAll(es[..i]) + Serialize(es[i])
    decreases i
  {
    if i > 0 {
      SerializeAllSnoc(es[1..], i - 1);
      assert es[..i + 1][1..] == es[1..][..i] && es[..i][1..] == es[1..][..i - 1];
    }
  }

  /** `deserialize_item`. */
  method DeserializeItem(s: Bytes, seek: nat) returns (r: Option<(nat, Item)>)
    ensures r == ParseItem(s, seek)
    decreases |s| - seek, 0
  {
    if seek >= |s| { return None; }
    var tag := s[seek];
    if tag == LIST_START {
      r := DeserializeIter(s, seek + 1, false);
    } else if tag == TUPLE_START {
      r := DeserializeIter(s, seek + 1, true);
    } else if tag == RAW || tag == MISC {
      var sized := BytesToLen(s, seek + 1);
      if sized.None? { return None; }
      var (size, at) := sized.value;
      var data := Slice(s, at, at + size);
      r := Some((at + size, if tag == RAW then Raw(data) else Misc(data)));
    } else {
      var kind := KindOf(tag);
      if kind.None? { return None; }
      var size := kind.value.Size();
      var state := Slice(s, seek + 1, seek + 1 + size);
      r := if |state| == size then Some((seek + 1 + size, Element(kind.value, state))) else None;
    }
  }

  /** `deserialize_iter`, which looks for nested lists and tuples before handing an entry to `deserialize_item`. */
  method DeserializeIter(s: Bytes, start: nat, tuple: bool) returns (r: Option<(nat, Item)>)
    ensures r == ParseIter(s, start, [], tuple)
    decreases |s| - start, 1
  {
    var output, seek := [], start;
    while true
      invariant start <= seek
      invariant ParseIter(s, start, [], tuple) == ParseIter(s, seek, output, tuple)
      decreases |s| - seek
    {
      if seek >= |s| { return None; }
      if s[seek] == LIST_END || s[seek] == TUPLE_END {
        return Some((seek + 1, if tuple then TupleItem(output) else ListItem(output)));
      }
      var entry;
      if s[seek] == LIST_START {
        entry := DeserializeIter(s, seek + 1, false);
      } else if s[seek] == TUPLE_START {
        entry := DeserializeIter(s, seek + 1, true);
      } else {
        entry := DeserializeItem(s, seek);
      }
      if entry.None? { return None; }
      output, seek := output + [entry.value.1], entry.value.0;
    }
  }
}
