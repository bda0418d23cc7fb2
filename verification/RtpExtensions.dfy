/** RTP header extension elements in the one-byte and two-byte forms (sections 4.2 and 4.3 of RFC 5285): writing a list
    of elements and finding them again. */
module RtpExtensions {
  import opened Bytes

  datatype Kind = OneByte | TwoBytes

  /** An element to write; `value` is a buffer of its own. */
  datatype Extension = Extension(id: Byte, value: seq<Byte>)

  /** Where the elements start, by their id, counted from the first byte of the extension value. */
  type Places = map<Byte, nat>

  /** The elements SetExtensions does not leave out. */
  predicate Usable(k: Kind, e: Extension) {
    match k
    case OneByte => 1 <= e.id <= 14 && 1 <= |e.value| <= 16
    case TwoBytes => e.id != 0
  }

  /** Lengths are bytes. */
  predicate Sized(es: seq<Extension>) {
    forall i :: 0 <= i < |es| ==> |es[i].value| < 0x100
  }

  function ElementBytes(k: Kind, e: Extension): seq<Byte>
    requires Usable(k, e) && |e.value| < 0x100
  {
    match k
    case OneByte => [e.id * 16 + (|e.value| - 1)] + e.value
    case TwoBytes => [e.id, |e.value|] + e.value
  }

  /** All usable elements, one behind the other. */
  function Elements(k: Kind, es: seq<Extension>): seq<Byte>
    requires Sized(es)
  {
    if es == [] then []
    else (if Usable(k, es[0]) then ElementBytes(k, es[0]) else []) + Elements(k, es[1..])
  }

  /** The places SetExtensions notes while writing from `at` on: a later element replaces an earlier one of its id. */
  function Placed(k: Kind, es: seq<Extension>, at: nat, m: Places): Places
    requires Sized(es)
  {
    if es == [] then m
    else if Usable(k, es[0]) then Placed(k, es[1..], at + |ElementBytes(k, es[0])|, m[es[0].id := at])
    else Placed(k, es[1..], at, m)
  }

  // ----- parsing

  /** "Counting padding bytes". */
  function SkipZeros(v: seq<Byte>, at: nat): (r: nat)
    requires at <= |v|
    ensures at <= r <= |v|
    ensures r == at || v[at] == 0
    decreases |v| - at
  {
    if at < |v| && v[at] == 0 then SkipZeros(v, at + 1) else at
  }

  /** The loops of ParseExtensions. */
  function Scan(k: Kind, v: seq<Byte>, at: nat, m: Places): Places
    requires at <= |v|
    decreases |v| - at
  {
    match k
    case OneByte =>
      if at >= |v| then m
      else
        var id, len := v[at] / 16, v[at] % 16 + 1;
        if id == 15 then m
        else if id == 0 then Scan(k, v, SkipZeros(v, at + 1), m)
        else if at + 1 + len > |v| then m
        else Scan(k, v, SkipZeros(v, at + 1 + len), m[id := at])
    case TwoBytes =>
      if at + 1 >= |v| then m
      else
        var id, len := v[at], v[at + 1];
        if id == 0 then Scan(k, v, SkipZeros(v, at + 1), m)
        else if at + 2 + len > |v| then m
        else Scan(k, v, SkipZeros(v, at + 2 + len), m[id := at])
  }

  /** GetExtension: the value of an element; None where the source returns nullptr. */
  function Lookup(k: Kind, v: seq<Byte>, m: Places, id: Byte): Option<seq<Byte>>
    requires PlacesOk(k, v, m)
  {
    if id == 0 || (k == OneByte && id > 14) || id !in m then None
    else
      var at := m[id];
      match k
      case OneByte => Some(v[at + 1..at + 2 + v[at] % 16])
      case TwoBytes => if v[at + 1] == 0 then None else Some(v[at + 2..at + 2 + v[at + 1]])
  }

  /** Every place noted holds a whole element. */
  predicate PlacesOk(k: Kind, v: seq<Byte>, m: Places) {
    forall id :: id in m ==>
      match k
      case OneByte => m[id] < |v| && m[id] + 2 + v[m[id]] % 16 <= |v|
      case TwoBytes => m[id] + 1 < |v| && m[id] + 2 + v[m[id] + 1] <= |v|
  }

  // ----- writing, then parsing

  lemma {:induction false} SkipsAllZeros(v: seq<Byte>, at: nat)
    requires at <= |v| && forall i :: at <= i < |v| ==> v[i] == 0
    ensures SkipZeros(v, at) == |v|
    decreases |v| - at
  {
    if at < |v| { SkipsAllZeros(v, at + 1); }
  }

  /** Nothing is found in padding. */
  lemma {:induction false} ScanZeros(k: Kind, v: seq<Byte>, at: nat, m: Places)
    requires at <= |v| && forall i :: at <= i < |v| ==> v[i] == 0
    ensures Scan(k, v, at, m) == m
  {
    if at < |v| { SkipsAllZeros(v, at + 1); }
  }

  /** No element starts with a zero byte. */
  lemma {:induction false} ElementsStart(k: Kind, es: seq<Extension>)
    requires Sized(es)
    ensures Elements(k, es) != [] ==> Elements(k, es)[0] != 0
    ensures Elements(k, es) == [] ==> forall m, at :: Placed(k, es, at, m) == m
  {
    if es != [] {
      ElementsStart(k, es[1..]);
    }
  }

  lemma {:induction false} Nibbles(high: nat, low: nat)
    requires low < 16
    ensures (high * 16 + low) / 16 == high && (high * 16 + low) % 16 == low
  {
  }

  /** The first bytes of an element, wherever it stands. */
  lemma {:induction false} ElementHead(k: Kind, v: seq<Byte>, at: nat, e: Extension)
    requires Usable(k, e) && |e.value| < 0x100 && at + |ElementBytes(k, e)| <= |v|
    requires v[at..at + |ElementBytes(k, e)|] == ElementBytes(k, e)
    ensures k == OneByte ==> |ElementBytes(k, e)| == 1 + |e.value| && v[at] / 16 == e.id && v[at] % 16 == |e.value| - 1
    ensures k == TwoBytes ==> |ElementBytes(k, e)| == 2 + |e.value| && v[at] == e.id && v[at + 1] == |e.value|
  {
    var bytes := ElementBytes(k, e);
    assert v[at] == v[at..at + |bytes|][0];
    if k == OneByte {
      Nibbles(e.id, |e.value| - 1);
    } else {
      assert v[at + 1] == v[at..at + |bytes|][1];
    }
  }

  lemma {:induction false} ScanElement(k: Kind, v: seq<Byte>, at: nat, m: Places, e: Extension)
    requires Usable(k, e) && |e.value| < 0x100 && at + |ElementBytes(k, e)| <= |v|
    requires v[at..at + |ElementBytes(k, e)|] == ElementBytes(k, e)
    ensures Scan(k, v, at, m) == Scan(k, v, SkipZeros(v, at + |ElementBytes(k, e)|), m[e.id := at])
  {
    hide SkipZeros, ElementBytes;
    ElementHead(k, v, at, e);
    match k
    case OneByte =>
    case TwoBytes =>
  }

  lemma {:induction false} SplitElements(k: Kind, es: seq<Extension>, v: seq<Byte>, at: nat)
    requires Sized(es) && es != [] && Usable(k, es[0]) && at <= |v|
    requires Elements(k, es) <= v[at..]
    ensures var n := |ElementBytes(k, es[0])|;
            && at + n <= |v| && v[at..at + n] == ElementBytes(k, es[0])
            && Elements(k, es[1..]) <= v[at + n..]
  {
    hide ElementBytes;
    ElementsCons(k, es);
    var first, rest := ElementBytes(k, es[0]), Elements(k, es[1..]);
    hide Elements;
    assert v[at..][..|first + rest|] == first + rest;
    assert v[at..at + |first|] == (first + rest)[..|first|];
    assert v[at + |first|..][..|rest|] == (first + rest)[|first|..];
  }

  lemma {:induction false} ScanRest(k: Kind, rest: seq<Extension>, v: seq<Byte>, at: nat, m: Places)
    requires Sized(rest) && at <= |v| && Elements(k, rest) <= v[at..]
    requires forall i :: at + |Elements(k, rest)| <= i < |v| ==> v[i] == 0
    ensures Elements(k, rest) == [] ==> Scan(k, v, SkipZeros(v, at), m) == m == Placed(k, rest, at, m)
    ensures Elements(k, rest) != [] ==> SkipZeros(v, at) == at
  {
    ElementsStart(k, rest);
    hide Elements, Placed;
    if Elements(k, rest) == [] {
      SkipsAllZeros(v, at);
      ScanZeros(k, v, |v|, m);
    } else {
      assert v[at] == v[at..][0] == Elements(k, rest)[0];
    }
  }

  lemma {:induction false} ElementsCons(k: Kind, es: seq<Extension>)
    requires Sized(es) && es != []
    ensures Elements(k, es) == (if Usable(k, es[0]) then ElementBytes(k, es[0]) else []) + Elements(k, es[1..])
    ensures !Usable(k, es[0]) ==> Elements(k, es) == Elements(k, es[1..])
  {
    hide ElementBytes;
  }

  /** Parsing elements followed by zeros finds each of them where it was written; the last one of an id wins. */
  lemma {:induction false} ScanFindsPlaced(k: Kind, es: seq<Extension>, v: seq<Byte>, at: nat, m: Places)
    requires Sized(es) && at <= |v| && Elements(k, es) <= v[at..]
    requires forall i :: at + |Elements(k, es)| <= i < |v| ==> v[i] == 0
    ensures Scan(k, v, at, m) == Placed(k, es, at, m)
  {
    hide Scan, ElementBytes, SkipZeros, Elements, Usable;
    if es == [] {
      NoElements(k);
      ScanZeros(k, v, at, m);
    } else {
      var rest := es[1..];
      ElementsCons(k, es);
      if Usable(k, es[0]) {
        var n := |ElementBytes(k, es[0])|;
        SplitElements(k, es, v, at);
        ScanElement(k, v, at, m, es[0]);
        ScanRest(k, rest, v, at + n, m[es[0].id := at]);
        if Elements(k, rest) != [] {
          ScanFindsPlaced(k, rest, v, at + n, m[es[0].id := at]);
        }
      } else {
        ScanFindsPlaced(k, rest, v, at, m);
      }
    }
  }

  lemma {:induction false} NoElements(k: Kind)
    ensures Elements(k, []) == []
  {
  }

  // ----- reading the values back

  /** The value of the last usable element of an id, if there is one and it is not empty. */
  function LastValue(k: Kind, es: seq<Extension>, id: Byte): Option<seq<Byte>> {
    if es == [] then None
    else
      var last := es[|es| - 1];
      if Usable(k, last) && last.id == id then (if last.value == [] then None else Some(last.value))
      else LastValue(k, es[..|es| - 1], id)
  }

  lemma {:induction false} ElementsSnoc(k: Kind, es: seq<Extension>, e: Extension)
    requires Sized(es) && |e.value| < 0x100
    ensures Sized(es + [e])
    ensures Elements(k, es + [e]) == Elements(k, es) + (if Usable(k, e) then ElementBytes(k, e) else [])
  {
    hide ElementBytes, Elements;
    assert Sized(es + [e]);
    NoElements(k);
    ElementsCons(k, es + [e]);
    if es == [] {
      assert es + [e] == [e] && [e][1..] == [];
    } else {
      assert (es + [e])[1..] == es[1..] + [e] && (es + [e])[0] == es[0];
      ElementsCons(k, es);
      ElementsSnoc(k, es[1..], e);
    }
  }

  lemma {:induction false} PlacedSnoc(k: Kind, es: seq<Extension>, e: Extension, at: nat, m: Places)
    requires Sized(es) && |e.value| < 0x100
    ensures Sized(es + [e])
    ensures Placed(k, es + [e], at, m)
         == (if Usable(k, e) then Placed(k, es, at, m)[e.id := at + |Elements(k, es)|] else Placed(k, es, at, m))
  {
    hide ElementBytes;
    assert Sized(es + [e]);
    if es == [] {
      assert es + [e] == [e] && [e][1..] == [];
    } else {
      assert (es + [e])[1..] == es[1..] + [e] && (es + [e])[0] == es[0];
      if Usable(k, es[0]) {
        PlacedSnoc(k, es[1..], e, at + |ElementBytes(k, es[0])|, m[es[0].id := at]);
      } else {
        PlacedSnoc(k, es[1..], e, at, m);
      }
    }
  }

  /** What is written at a place the writer noted. */
  predicate Holds(k: Kind, v: seq<Byte>, at: nat, e: Extension) {
    && Usable(k, e) && |e.value| < 0x100 && at + |ElementBytes(k, e)| <= |v|
    && v[at..at + |ElementBytes(k, e)|] == ElementBytes(k, e)
  }

  /** The last usable element of an id. */
  function LastOf(k: Kind, es: seq<Extension>, id: Byte): Option<Extension> {
    if es == [] then None
    else if Usable(k, es[|es| - 1]) && es[|es| - 1].id == id then Some(es[|es| - 1])
    else LastOf(k, es[..|es| - 1], id)
  }

  /** The places noted are those of the last usable element of each id, and hold it. */
  lemma {:induction false} PlacedHold(k: Kind, es: seq<Extension>, v: seq<Byte>, id: Byte)
    requires Sized(es) && Elements(k, es) <= v
    ensures var m := Placed(k, es, 0, map[]);
            && (id in m <==> LastOf(k, es, id).Some?)
            && (id in m ==> LastOf(k, es, id).value.id == id && Holds(k, v, m[id], LastOf(k, es, id).value))
  {
    if es == [] {
      assert Placed(k, es, 0, map[]) == map[];
    } else {
      var init, e := es[..|es| - 1], es[|es| - 1];
      assert es == init + [e];
      assert LastOf(k, es, id) == if Usable(k, e) && e.id == id then Some(e) else LastOf(k, init, id);
      hide ElementBytes, Elements, Holds, Placed, Usable, LastOf;
      ElementsSnoc(k, init, e);
      PlacedSnoc(k, init, e, 0, map[]);
      PrefixOf(Elements(k, init), if Usable(k, e) then ElementBytes(k, e) else [], v);
      PlacedHold(k, init, v, id);
      if Usable(k, e) && e.id == id {
        LastHeld(k, v, Elements(k, init), e);
      }
    }
  }

  lemma {:induction false} PrefixOf(a: seq<Byte>, b: seq<Byte>, v: seq<Byte>)
    requires a + b <= v
    ensures a <= v
  {
    assert a == (a + b)[..|a|] == v[..|a|];
  }

  lemma {:induction false} LastHeld(k: Kind, v: seq<Byte>, front: seq<Byte>, e: Extension)
    requires Usable(k, e) && |e.value| < 0x100 && front + ElementBytes(k, e) <= v
    ensures Holds(k, v, |front|, e)
  {
    hide ElementBytes;
    var n := |front + ElementBytes(k, e)|;
    assert v[|front|..n] == v[..n][|front|..] == ElementBytes(k, e);
  }

  lemma {:induction false} LastValueOf(k: Kind, es: seq<Extension>, id: Byte)
    ensures LastValue(k, es, id) ==
            match LastOf(k, es, id)
            case None => None
            case Some(e) => if e.value == [] then None else Some(e.value)
  {
    if es != [] { LastValueOf(k, es[..|es| - 1], id); }
  }

  lemma {:induction false} HeldValue(k: Kind, v: seq<Byte>, at: nat, e: Extension)
    requires Holds(k, v, at, e)
    ensures k == OneByte ==> v[at] % 16 == |e.value| - 1 && v[at + 1..at + 2 + v[at] % 16] == e.value
    ensures k == TwoBytes ==> v[at + 1] == |e.value| && v[at + 2..at + 2 + v[at + 1]] == e.value
  {
    var bytes := ElementBytes(k, e);
    assert v[at..at + |bytes|] == bytes;
    assert v[at] == bytes[0] && (|bytes| > 1 ==> v[at + 1] == bytes[1]);
    match k
    case OneByte => assert bytes[1..] == e.value && v[at + 1..at + |bytes|] == bytes[1..];
    case TwoBytes => assert bytes[2..] == e.value && v[at + 2..at + |bytes|] == bytes[2..];
  }

  /** Asking for an id gives the value of the last usable element written under it, whatever stands behind. */
  lemma {:induction false} LookupGivesLast(k: Kind, es: seq<Extension>, v: seq<Byte>, id: Byte)
    requires Sized(es) && Elements(k, es) <= v
    ensures var m := Placed(k, es, 0, map[]);
            && PlacesOk(k, v, m)
            && Lookup(k, v, m, id) == LastValue(k, es, id)
  {
    hide Placed, LastOf, Holds, Elements, PlacesOk;
    var m := Placed(k, es, 0, map[]);
    PlacedFit(k, es, v);
    PlacedHold(k, es, v, id);
    LastValueOf(k, es, id);
    if id in m {
      HeldValue(k, v, m[id], LastOf(k, es, id).value);
      HeldFits(k, v, m[id], LastOf(k, es, id).value);
    }
  }

  lemma {:induction false} PlacedFit(k: Kind, es: seq<Extension>, v: seq<Byte>)
    requires Sized(es) && Elements(k, es) <= v
    ensures PlacesOk(k, v, Placed(k, es, 0, map[]))
  {
    hide Placed, LastOf, Holds, Elements;
    var m := Placed(k, es, 0, map[]);
    forall i | i in m
      ensures k == OneByte ==> m[i] < |v| && m[i] + 2 + v[m[i]] % 16 <= |v|
      ensures k == TwoBytes ==> m[i] + 1 < |v| && m[i] + 2 + v[m[i] + 1] <= |v|
    {
      PlacedHold(k, es, v, i);
      HeldValue(k, v, m[i], LastOf(k, es, i).value);
      HeldFits(k, v, m[i], LastOf(k, es, i).value);
    }
  }

  lemma {:induction false} HeldFits(k: Kind, v: seq<Byte>, at: nat, e: Extension)
    requires Holds(k, v, at, e)
    ensures k == OneByte ==> at + 1 + |e.value| <= |v| && 1 <= e.id <= 14 && e.value != []
    ensures k == TwoBytes ==> at + 2 + |e.value| <= |v| && e.id != 0
  {
  }

  /** Parsing only notes elements that end inside the extension. */
  lemma {:induction false} ScanPlacesOk(k: Kind, v: seq<Byte>, at: nat, m: Places)
    requires at <= |v| && PlacesOk(k, v, m)
    ensures PlacesOk(k, v, Scan(k, v, at, m))
    decreases |v| - at
  {
    hide SkipZeros;
    match k
    case OneByte =>
      if at < |v| {
        var id, len := v[at] / 16, v[at] % 16 + 1;
        if id == 0 {
          ScanPlacesOk(k, v, SkipZeros(v, at + 1), m);
        } else if id != 15 && at + 1 + len <= |v| {
          ScanPlacesOk(k, v, SkipZeros(v, at + 1 + len), m[id := at]);
        }
      }
    case TwoBytes =>
      if at + 1 < |v| {
        var id, len := v[at], v[at + 1];
        if id == 0 {
          ScanPlacesOk(k, v, SkipZeros(v, at + 1), m);
        } else if at + 2 + len <= |v| {
          ScanPlacesOk(k, v, SkipZeros(v, at + 2 + len), m[id := at]);
        }
      }
  }

  // ----- which elements are written, in numbers

  /** An element adds its value behind one byte of id and length less one, or behind a byte of each; in the one-byte
      form only with an id of 1 to 14 and 1 to 16 bytes, in the two-byte form only with an id other than 0. */
  lemma {:induction false} WrittenExactly(es: seq<Extension>, e: Extension)
    requires Sized(es) && |e.value| < 0x100
    ensures Elements(OneByte, []) == Elements(TwoBytes, []) == [] && Sized(es + [e])
    ensures Elements(OneByte, es + [e]) == Elements(OneByte, es) +
            (if 1 <= e.id <= 14 && 1 <= |e.value| <= 16 then [e.id * 16 + (|e.value| - 1)] + e.value else [])
    ensures Elements(TwoBytes, es + [e]) == Elements(TwoBytes, es) +
            (if e.id != 0 then [e.id, |e.value|] + e.value else [])
  {
    ElementsSnoc(OneByte, es, e);
    ElementsSnoc(TwoBytes, es, e);
    hide Elements;
    NoElements(OneByte);
    NoElements(TwoBytes);
  }

  /** The one-byte form writes this element under the id, and none of that id behind it. */
  predicate LastOneByte(es: seq<Extension>, i: nat, id: Byte) {
    && i < |es| && es[i].id == id && 1 <= id <= 14 && 1 <= |es[i].value| <= 16
    && forall j :: i < j < |es| && es[j].id == id ==> !(1 <= |es[j].value| <= 16)
  }

  predicate NoOneByte(es: seq<Extension>, id: Byte) {
    forall i :: 0 <= i < |es| && es[i].id == id ==> !(1 <= id <= 14 && 1 <= |es[i].value| <= 16)
  }

  /** The two-byte form writes this element under the id, and none of that id behind it. */
  predicate LastTwoBytes(es: seq<Extension>, i: nat, id: Byte) {
    i < |es| && es[i].id == id && id != 0 && forall j :: i < j < |es| ==> es[j].id != id
  }

  predicate NoTwoBytes(es: seq<Extension>, id: Byte) {
    id == 0 || forall i :: 0 <= i < |es| ==> es[i].id != id
  }

  lemma {:induction false} LastValueFound(k: Kind, es: seq<Extension>, i: nat, id: Byte)
    requires if k == OneByte then LastOneByte(es, i, id) else LastTwoBytes(es, i, id)
    ensures i < |es| && LastValue(k, es, id) == if es[i].value == [] then None else Some(es[i].value)
  {
    var n := |es| - 1;
    if i < n {
      assert es[..n][i] == es[i] && es[n].id == id ==> !Usable(k, es[n]);
      LastValueFound(k, es[..n], i, id);
    }
  }

  lemma {:induction false} NoValueFound(k: Kind, es: seq<Extension>, id: Byte)
    requires if k == OneByte then NoOneByte(es, id) else NoTwoBytes(es, id)
    ensures LastValue(k, es, id) == None
  {
    if es != [] {
      NoValueFound(k, es[..|es| - 1], id);
    }
  }

  /** The value kept under an id, in both forms. */
  lemma {:induction false} LastValueExactly(k: Kind, es: seq<Extension>, id: Byte)
    ensures forall i: nat :: k == OneByte && LastOneByte(es, i, id) ==> LastValue(k, es, id) == Some(es[i].value)
    ensures k == OneByte && NoOneByte(es, id) ==> LastValue(k, es, id) == None
    ensures forall i: nat :: k == TwoBytes && LastTwoBytes(es, i, id) ==>
              LastValue(k, es, id) == if es[i].value == [] then None else Some(es[i].value)
    ensures k == TwoBytes && NoTwoBytes(es, id) ==> LastValue(k, es, id) == None
  {
    hide LastValue;
    forall i: nat | k == OneByte && LastOneByte(es, i, id) ensures LastValue(k, es, id) == Some(es[i].value) {
      LastValueFound(k, es, i, id);
    }
    forall i: nat | k == TwoBytes && LastTwoBytes(es, i, id)
      ensures LastValue(k, es, id) == if es[i].value == [] then None else Some(es[i].value)
    {
      LastValueFound(k, es, i, id);
    }
    if if k == OneByte then NoOneByte(es, id) else NoTwoBytes(es, id) {
      NoValueFound(k, es, id);
    }
  }

  // ----- what parsing finds in any bytes

  /** A byte between elements, or an element. */
  datatype Piece = Gap(b: Byte) | Element(e: Extension)

  /** In the one-byte form every byte that names id 0 is padding, in the two-byte form a zero byte is. */
  predicate PieceOk(k: Kind, p: Piece) {
    match p
    case Gap(b) => if k == OneByte then b < 16 else b == 0
    case Element(e) =>
      if k == OneByte then 1 <= e.id <= 14 && 1 <= |e.value| <= 16 else e.id != 0 && |e.value| < 0x100
  }

  predicate PiecesOk(k: Kind, ps: seq<Piece>) {
    forall i :: 0 <= i < |ps| ==> PieceOk(k, ps[i])
  }

  function PieceBytes(k: Kind, p: Piece): (r: seq<Byte>)
    requires PieceOk(k, p)
    ensures r != []
  {
    match p
    case Gap(b) => [b]
    case Element(e) => ElementBytes(k, e)
  }

  function PiecesBytes(k: Kind, ps: seq<Piece>): seq<Byte>
    requires PiecesOk(k, ps)
  {
    if ps == [] then [] else PieceBytes(k, ps[0]) + PiecesBytes(k, ps[1..])
  }

  /** Each element under its id, where it starts; a later one replaces an earlier one of its id. */
  function PiecesPlaces(k: Kind, ps: seq<Piece>, at: nat, m: Places): Places
    requires PiecesOk(k, ps)
  {
    if ps == [] then m
    else
      PiecesPlaces(k, ps[1..], at + |PieceBytes(k, ps[0])|, if ps[0].Gap? then m else m[ps[0].e.id := at])
  }

  /** Where parsing ends: at the end, at the reserved id 15, or at an element that is cut off. */
  predicate Stops(k: Kind, tail: seq<Byte>) {
    tail == [] ||
    if k == OneByte then tail[0] >= 0xF0 || (tail[0] >= 16 && |tail| - 2 < tail[0] % 16)
    else |tail| == 1 || (tail[0] != 0 && |tail| - 2 < tail[1])
  }

  lemma {:induction false} ScanSkips(k: Kind, v: seq<Byte>, at: nat, m: Places)
    requires at <= |v|
    ensures Scan(k, v, SkipZeros(v, at), m) == Scan(k, v, at, m)
  {
  }

  lemma {:induction false} ScanGap(k: Kind, v: seq<Byte>, at: nat, m: Places)
    requires at < |v| && PieceOk(k, Gap(v[at]))
    ensures Scan(k, v, at, m) == Scan(k, v, at + 1, m)
  {
    ScanSkips(k, v, at + 1, m);
  }

  lemma {:induction false} ScanStops(k: Kind, v: seq<Byte>, at: nat, m: Places)
    requires at <= |v| && Stops(k, v[at..])
    ensures Scan(k, v, at, m) == m
  {
    if at < |v| {
      assert v[at..][0] == v[at];
      if |v| > at + 1 { assert v[at..][1] == v[at + 1]; }
    }
  }

  lemma {:induction false} ScanPiece(k: Kind, p: Piece, v: seq<Byte>, at: nat, m: Places)
    requires PieceOk(k, p) && at + |PieceBytes(k, p)| <= |v|
    requires v[at..at + |PieceBytes(k, p)|] == PieceBytes(k, p)
    ensures Scan(k, v, at, m) == Scan(k, v, at + |PieceBytes(k, p)|, if p.Gap? then m else m[p.e.id := at])
  {
    hide Scan, ElementBytes, SkipZeros;
    match p
    case Gap(b) =>
      assert v[at] == v[at..at + 1][0] == b;
      ScanGap(k, v, at, m);
    case Element(e) =>
      ScanElement(k, v, at, m, e);
      ScanSkips(k, v, at + |PieceBytes(k, p)|, m[e.id := at]);
  }

  lemma {:induction false} CutInThree(v: seq<Byte>, at: nat, a: seq<Byte>, b: seq<Byte>, c: seq<Byte>)
    requires at <= |v| && v[at..] == a + b + c
    ensures at + |a| <= |v| && v[at..at + |a|] == a && v[at + |a|..] == b + c
  {
    assert v[at..at + |a|] == v[at..][..|a|] && v[at + |a|..] == v[at..][|a|..];
  }

  /** Parsing pieces, and then something it stops at, notes exactly the elements among them. */
  lemma {:induction false} ScanPieces(k: Kind, ps: seq<Piece>, tail: seq<Byte>, v: seq<Byte>, at: nat, m: Places)
    requires PiecesOk(k, ps) && Stops(k, tail) && at <= |v| && v[at..] == PiecesBytes(k, ps) + tail
    ensures Scan(k, v, at, m) == PiecesPlaces(k, ps, at, m)
    decreases |ps|
  {
    hide Scan, Stops, PieceBytes, PieceOk;
    if ps == [] {
      assert [] + tail == tail;
      ScanStops(k, v, at, m);
    } else {
      CutInThree(v, at, PieceBytes(k, ps[0]), PiecesBytes(k, ps[1..]), tail);
      ScanPiece(k, ps[0], v, at, m);
      ScanPieces(k, ps[1..], tail, v, at + |PieceBytes(k, ps[0])|, if ps[0].Gap? then m else m[ps[0].e.id := at]);
    }
  }

  lemma {:induction false} FirstPiece(k: Kind, v: seq<Byte>) returns (p: Piece)
    requires !Stops(k, v)
    ensures PieceOk(k, p) && PieceBytes(k, p) <= v
  {
    if PieceOk(k, Gap(v[0])) {
      p := Gap(v[0]);
    } else if k == OneByte {
      p := Element(Extension(v[0] / 16, v[1..2 + v[0] % 16]));
    } else {
      p := Element(Extension(v[0], v[2..2 + v[1]]));
    }
  }

  /** And any bytes are such pieces and a rest it stops at: so that is all parsing ever finds. */
  lemma {:induction false} ScanExactly(k: Kind, v: seq<Byte>) returns (ps: seq<Piece>, tail: seq<Byte>)
    ensures PiecesOk(k, ps) && Stops(k, tail) && v == PiecesBytes(k, ps) + tail
    ensures Scan(k, v, 0, map[]) == PiecesPlaces(k, ps, 0, map[])
  {
    ps, tail := InPieces(k, v);
    assert v[0..] == v;
    ScanPieces(k, ps, tail, v, 0, map[]);
  }

  lemma {:induction false} InPieces(k: Kind, v: seq<Byte>) returns (ps: seq<Piece>, tail: seq<Byte>)
    ensures PiecesOk(k, ps) && Stops(k, tail) && v == PiecesBytes(k, ps) + tail
    decreases |v|
  {
    hide Stops, PieceOk, PieceBytes;
    if Stops(k, v) {
      ps, tail := [], v;
      assert [] + tail == v;
    } else {
      var p := FirstPiece(k, v);
      var n := |PieceBytes(k, p)|;
      var rest;
      rest, tail := InPieces(k, v[n..]);
      ps := [p] + rest;
      assert ps[1..] == rest && v == v[..n] + v[n..];
      assert PieceBytes(k, p) + (PiecesBytes(k, rest) + tail) == (PieceBytes(k, p) + PiecesBytes(k, rest)) + tail;
    }
  }
}
