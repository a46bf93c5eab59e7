/**
 The remapping shim (remap.c): a map given as a string of items redirects pieces of a stream
 to other places of the stream below, or to zeros.
 */
module Remap {
  import opened Arith
  import opened Store

  datatype Kind = Data | Zero | Skip | Pos

  datatype Item = Item(orig: nat, remapped: nat, kind: Kind)

  // str_to_off_with_end: the number at a position of the string, and the position behind it.
  type Number = (string, nat) -> (nat, nat)

  ghost predicate ReadsForward(num: Number) {
    forall s: string, i: nat {:trigger num(s, i)} :: i <= |s| ==> i <= num(s, i).1 <= |s| && (i == |s| ==> num(s, i).0 == 0)
  }

  predicate StartsWith(s: string, i: nat, word: string) {
    i + |word| <= |s| && s[i..i + |word|] == word
  }

  // One item of the string. At its end one more item is read, of data and of length 0.
  datatype Lexed = Bad | Lexed(kind: Kind, len: nat, next: nat)

  function Word(s: string, i: nat): (r: (Kind, nat))
    requires i < |s|
    ensures i <= r.1 <= |s| && (r.0 != Data ==> i < r.1)
  {
    if StartsWith(s, i, "skip") then (Skip, i + 4)
    else if StartsWith(s, i, "zero") then (Zero, i + 4)
    else if StartsWith(s, i, "pos") then (Pos, i + 3)
    else (Data, i)
  }

  function Lex(s: string, i: nat, num: Number): (l: Lexed)
    requires i <= |s| && ReadsForward(num)
    ensures l.Lexed? ==> i <= l.next <= |s| && (i < |s| ==> i < l.next)
    ensures i == |s| ==> l == Lexed(Data, 0, i)
  {
    var word := if i == |s| then (Data, i) else Word(s, i);
    var end := num(s, word.1).1;
    if end == |s| then Lexed(word.0, num(s, word.1).0, end)
    else if s[end] == ',' then Lexed(word.0, num(s, word.1).0, end + 1)
    else Bad
  }

  // The map a string stands for, and how much longer the stream below is.
  datatype Parsed = BadMap | Parsed(items: seq<Item>, net: int)

  function Parse(s: string, i: nat, orig: nat, remapped: nat, num: Number): Parsed
    requires i <= |s| && ReadsForward(num)
    decreases |s| - i
  {
    match Lex(s, i, num)
    case Bad => BadMap
    case Lexed(kind, len, next) =>
      if i == |s| then Parsed([Item(orig, remapped, kind)], orig - remapped)
      else if kind == Pos then Parse(s, next, len, remapped, num)
      else
        var orig' := if kind == Zero then orig else orig + len;
        var remapped' := if kind == Skip then remapped else remapped + len;
        var rest := Parse(s, next, orig', remapped', num);
        if kind == Skip || rest.BadMap? then rest else Parsed([Item(orig, remapped, kind)] + rest.items, rest.net)
  }

  // Items lie one behind the other, without gaps, and all addresses are in one of them.
  ghost predicate Ordered(items: seq<Item>, remapped: nat) {
    && items != [] && items[0].remapped == remapped
    && (forall i, j :: 0 <= i < j < |items| ==> items[i].remapped <= items[j].remapped)
    && (forall i :: 0 <= i < |items| ==> items[i].kind == Data || items[i].kind == Zero)
  }

  lemma {:induction false} ParsedIsOrdered(s: string, i: nat, orig: nat, remapped: nat, num: Number)
    requires i <= |s| && ReadsForward(num)
    ensures var p := Parse(s, i, orig, remapped, num); p.Parsed? ==> Ordered(p.items, remapped) == true
    decreases |s| - i
  {
    var l := Lex(s, i, num);
    if i == |s| {
      OrderedAtEnd(Item(orig, remapped, Data));
    } else if l.Lexed? && l.kind == Pos {
      ParsedIsOrdered(s, l.next, l.len, remapped, num);
    } else if l.Lexed? {
      var orig', remapped' := if l.kind == Zero then orig else orig + l.len, if l.kind == Skip then remapped else remapped + l.len;
      var item, rest := Item(orig, remapped, l.kind), Parse(s, l.next, orig', remapped', num);
      ParsedIsOrdered(s, l.next, orig', remapped', num);
      OrderedLonger(item, rest, remapped');
      assert Parse(s, i, orig, remapped, num) == if l.kind == Skip || rest.BadMap? then rest else Parsed([item] + rest.items, rest.net);
    }
  }

  lemma OrderedAtEnd(item: Item)
    requires item.kind == Data
    ensures Ordered([item], item.remapped) == true
  {
  }

  lemma OrderedLonger(item: Item, rest: Parsed, remapped: nat)
    requires (rest.Parsed? ==> Ordered(rest.items, remapped) == true) && item.remapped <= remapped
    ensures rest.Parsed? && (item.kind == Data || item.kind == Zero) ==> Ordered([item] + rest.items, item.remapped) == true
    ensures rest.Parsed? && item.remapped == remapped ==> Ordered(rest.items, item.remapped) == true
  {
  }

  // The item an address belongs to: the last one that does not begin behind it.
  function ItemAt(items: seq<Item>, p: nat, i: nat): (k: nat)
    requires i < |items|
    ensures i <= k < |items| && (k + 1 < |items| ==> p < items[k + 1].remapped)
    ensures forall j :: i < j <= k ==> items[j].remapped <= p
    decreases |items| - i
  {
    if i + 1 < |items| && p >= items[i + 1].remapped then ItemAt(items, p, i + 1) else i
  }

  lemma ItemsGrow(items: seq<Item>, p: nat, q: nat)
    requires Ordered(items, 0) && p <= q
    ensures ItemAt(items, p, 0) <= ItemAt(items, q, 0)
  {
  }

  lemma SameItem(items: seq<Item>, p: nat, q: nat)
    requires Ordered(items, 0) && p <= q
    requires var k := ItemAt(items, p, 0); k + 1 < |items| ==> q < items[k + 1].remapped
    ensures ItemAt(items, q, 0) == ItemAt(items, p, 0)
  {
    var k, m := ItemAt(items, p, 0), ItemAt(items, q, 0);
    assert k <= m <= k;
  }

  // Where the stream below has the byte of an address, if it is data.
  function Target(items: seq<Item>, p: nat): nat
    requires Ordered(items, 0)
  {
    var i := ItemAt(items, p, 0);
    assert items[i].remapped <= p;
    p - items[i].remapped + items[i].orig
  }

  predicate IsData(items: seq<Item>, p: nat)
    requires items != []
  {
    items[ItemAt(items, p, 0)].kind == Data
  }

  // Different addresses of data are at different places below.
  ghost predicate Injective(items: seq<Item>)
    requires Ordered(items, 0)
  {
    forall p: nat, q: nat {:trigger Target(items, p), Target(items, q)} :: p != q && IsData(items, p) && IsData(items, q) ==> Target(items, p) != Target(items, q)
  }

  // Without items that set the position, the places below only go forward.
  ghost predicate Forward(items: seq<Item>) {
    forall i, j :: 0 <= i < j < |items| && items[i].kind == Data ==> items[i].orig + (items[i + 1].remapped - items[i].remapped) <= items[j].orig
  }

  ghost predicate NoPos(s: string, i: nat, num: Number)
    requires i <= |s| && ReadsForward(num)
    decreases |s| - i
  {
    match Lex(s, i, num)
    case Bad => true
    case Lexed(kind, len, next) => i == |s| || (kind != Pos && NoPos(s, next, num))
  }

  ghost predicate ForwardFrom(items: seq<Item>, orig: nat) {
    Forward(items) && forall j :: 0 <= j < |items| ==> items[j].orig >= orig
  }

  lemma {:induction false} ParsedIsForward(s: string, i: nat, orig: nat, remapped: nat, num: Number)
    requires i <= |s| && ReadsForward(num) && NoPos(s, i, num)
    ensures Parse(s, i, orig, remapped, num).Parsed? ==> ForwardFrom(Parse(s, i, orig, remapped, num).items, orig)
    decreases |s| - i
  {
    var l := Lex(s, i, num);
    if l.Lexed? && i < |s| {
      var orig', remapped' := if l.kind == Zero then orig else orig + l.len, if l.kind == Skip then remapped else remapped + l.len;
      ParsedIsForward(s, l.next, orig', remapped', num);
      ParsedIsOrdered(s, l.next, orig', remapped', num);
      ForwardStep(Item(orig, remapped, l.kind), Parse(s, l.next, orig', remapped', num), orig', remapped');
    }
  }

  lemma ForwardStep(item: Item, rest: Parsed, orig: nat, remapped: nat)
    requires rest.Parsed? ==> ForwardFrom(rest.items, orig) && Ordered(rest.items, remapped)
    requires item.orig <= orig && item.remapped <= remapped
    requires item.kind == Data ==> item.orig + (remapped - item.remapped) <= orig
    ensures rest.Parsed? ==> ForwardFrom([item] + rest.items, item.orig) && ForwardFrom(rest.items, item.orig)
  {
    if rest.Parsed? {
      ForwardLonger(item, rest.items, orig);
    }
  }

  lemma ForwardLonger(item: Item, rest: seq<Item>, orig: nat)
    requires Forward(rest) && rest != [] && item.remapped <= rest[0].remapped && item.orig <= orig
    requires forall j :: 0 <= j < |rest| ==> rest[j].orig >= orig
    requires item.kind == Data ==> item.orig + (rest[0].remapped - item.remapped) <= orig
    ensures Forward([item] + rest) && forall j :: 0 <= j < |rest| + 1 ==> ([item] + rest)[j].orig >= item.orig
  {
    var all := [item] + rest;
    forall i, j | 0 <= i < j < |all| && all[i].kind == Data
      ensures all[i].orig + (all[i + 1].remapped - all[i].remapped) <= all[j].orig
    {
      if i > 0 {
        assert rest[i - 1].orig + (rest[i].remapped - rest[i - 1].remapped) <= rest[j - 1].orig;
      }
    }
  }

  lemma TargetsGrow(items: seq<Item>, p: nat, q: nat)
    requires Ordered(items, 0) && Forward(items) && p < q && IsData(items, p)
    ensures Target(items, p) < Target(items, q)
  {
    var i, j := ItemAt(items, p, 0), ItemAt(items, q, 0);
    assert i <= j;
    if i < j {
      assert items[i].orig + (items[i + 1].remapped - items[i].remapped) <= items[j].orig;
    }
  }

  lemma ForwardIsInjective(items: seq<Item>)
    requires Ordered(items, 0) && Forward(items)
    ensures Injective(items)
  {
    forall p: nat, q: nat | p != q && IsData(items, p) && IsData(items, q)
      ensures Target(items, p) != Target(items, q)
    {
      if p < q {
        TargetsGrow(items, p, q);
      } else {
        TargetsGrow(items, q, p);
      }
    }
  }

  // A map without position items sends different addresses of data to different places.
  lemma MapWithoutPosIsInjective(s: string, num: Number)
    requires ReadsForward(num) && NoPos(s, 0, num)
    ensures var p := Parse(s, 0, 0, 0, num); p.Parsed? ==> Ordered(p.items, 0) && Injective(p.items)
  {
    var p := Parse(s, 0, 0, 0, num);
    ParsedIsOrdered(s, 0, 0, 0, num);
    ParsedIsForward(s, 0, 0, 0, num);
    if p.Parsed? {
      ForwardIsInjective(p.items);
    }
  }

  // The addresses of the given length that lie in the same item as the first.
  ghost predicate Clipped(items: seq<Item>, start: nat, asked: nat, len: nat)
    requires Ordered(items, 0)
  {
    && len <= asked && (asked > 0 ==> len > 0)
    && (forall p: nat {:trigger ItemAt(items, p, 0)} :: start <= p < start + len ==> ItemAt(items, p, 0) == ItemAt(items, start, 0))
    && (len < asked ==> ItemAt(items, start + len, 0) != ItemAt(items, start, 0))
  }

  lemma OthersBehind(items: seq<Item>, start: nat, asked: nat, len: nat)
    requires Ordered(items, 0) && Clipped(items, start, asked, len)
    ensures forall p: nat {:trigger ItemAt(items, p, 0)} :: start + len <= p < start + asked ==> ItemAt(items, p, 0) != ItemAt(items, start, 0)
  {
    forall p: nat | start + len <= p < start + asked
      ensures ItemAt(items, p, 0) != ItemAt(items, start, 0)
    {
      ItemsGrow(items, start, start + len);
      ItemsGrow(items, start + len, p);
    }
  }

  // A run of addresses inside one item, and where it goes.
  ghost predicate OneItem(items: seq<Item>, start: nat, len: nat, start': nat, kind: Kind)
    requires Ordered(items, 0)
  {
    forall p: nat {:trigger ItemAt(items, p, 0)} {:trigger Target(items, p)} :: start <= p < start + len ==>
      items[ItemAt(items, p, 0)].kind == kind && Target(items, p) == start' + (p - start)
  }

  // A request cut at the end of the item it begins in.
  lemma ItemEnds(items: seq<Item>, start: nat, asked: nat, len: nat)
    requires Ordered(items, 0)
    requires var i := ItemAt(items, start, 0);
      len == if i + 1 < |items| && asked > items[i + 1].remapped - start then items[i + 1].remapped - start else asked
    ensures Clipped(items, start, asked, len)
    ensures OneItem(items, start, len, Target(items, start), items[ItemAt(items, start, 0)].kind)
  {
    forall p | start <= p < start + len
      ensures ItemAt(items, p, 0) == ItemAt(items, start, 0)
    {
      SameItem(items, start, p);
    }
  }

  // What is still to be parsed continues what has been done.
  ghost predicate Continues(whole: Parsed, done: seq<Item>, s: string, i: nat, orig: nat, remapped: nat, num: Number)
    requires i <= |s| && ReadsForward(num)
  {
    var rest := Parse(s, i, orig, remapped, num);
    if rest.BadMap? then whole == rest else whole == Parsed(done + rest.items, rest.net)
  }

  // One item more has been done.
  lemma ParseStep(whole: Parsed, done: seq<Item>, s: string, i: nat, orig: nat, remapped: nat, num: Number)
    requires i <= |s| && ReadsForward(num) && Continues(whole, done, s, i, orig, remapped, num)
    ensures var l := Lex(s, i, num);
      match l
      case Bad => whole == BadMap
      case Lexed(kind, len, next) =>
        var longer := done + [Item(orig, remapped, kind)];
        && (whole.Parsed? && kind != Skip && kind != Pos ==> |longer| <= |whole.items|)
        && (if i == |s| then whole == Parsed(longer, orig - remapped)
            else if kind == Pos then Continues(whole, done, s, next, len, remapped, num)
            else if kind == Skip then Continues(whole, done, s, next, orig + len, remapped, num)
            else Continues(whole, longer, s, next, if kind == Zero then orig else orig + len, remapped + len, num))
  {
    var l := Lex(s, i, num);
    if l.Lexed? && i < |s| && l.kind != Pos && l.kind != Skip {
      var rest := Parse(s, l.next, if l.kind == Zero then orig else orig + l.len, remapped + l.len, num);
      if rest.Parsed? {
        assert done + ([Item(orig, remapped, l.kind)] + rest.items) == done + [Item(orig, remapped, l.kind)] + rest.items;
      }
    }
  }

  // What a stream has at an address, if the stream below has the given bytes.
  function Mapped(items: seq<Item>, bytes: seq<byte>, p: nat): byte
    requires Ordered(items, 0)
  {
    if IsData(items, p) then Extended(bytes, Target(items, p)) else 0
  }

  lemma FourItems(s: string, num: Number)
    requires s == "zero2,skip3,pos9,4" && ReadsForward(num)
    requires num(s, 4) == (2, 5) && num(s, 10) == (3, 11) && num(s, 15) == (9, 16) && num(s, 17) == (4, 18) && num(s, 18) == (0, 18)
    ensures Lex(s, 0, num) == Lexed(Zero, 2, 6) && Lex(s, 6, num) == Lexed(Skip, 3, 12)
    ensures Lex(s, 12, num) == Lexed(Pos, 9, 17) && Lex(s, 17, num) == Lexed(Data, 4, 18) && Lex(s, 18, num) == Lexed(Data, 0, 18)
  {
    Differs(s, 0, "skip");
    Differs(s, 12, "skip");
    Differs(s, 12, "zero");
    assert s[0..4] == "zero";
    assert s[6..10] == "skip";
    assert s[12..15] == "pos";
  }

  lemma Differs(s: string, i: nat, word: string)
    requires i < |s| && word != [] && s[i] != word[0]
    ensures !StartsWith(s, i, word)
  {
    assert i + |word| <= |s| ==> s[i..i + |word|][0] == s[i];
  }

  // What the words of a map mean: two bytes of zeros, three bytes of the stream below passed
  // over, and then the stream from byte 9 on.
  lemma MapOfFourItems(s: string, num: Number, bytes: seq<byte>, p: nat)
    requires s == "zero2,skip3,pos9,4" && ReadsForward(num)
    requires num(s, 4) == (2, 5) && num(s, 10) == (3, 11) && num(s, 15) == (9, 16) && num(s, 17) == (4, 18)
    ensures Parse(s, 0, 0, 0, num) == Parsed([Item(0, 0, Zero), Item(9, 2, Data), Item(13, 6, Data)], 7)
    ensures Ordered(Parse(s, 0, 0, 0, num).items, 0)
    ensures Mapped(Parse(s, 0, 0, 0, num).items, bytes, p) == if p < 2 then 0 else Extended(bytes, p + 7)
  {
    assert num(s, 18) == (0, 18);
    FourItems(s, num);
    assert Parse(s, 18, 13, 6, num) == Parsed([Item(13, 6, Data)], 7);
    assert Parse(s, 17, 9, 2, num) == Parsed([Item(9, 2, Data), Item(13, 6, Data)], 7);
    assert Parse(s, 12, 3, 2, num) == Parsed([Item(9, 2, Data), Item(13, 6, Data)], 7);
    assert Parse(s, 6, 0, 2, num) == Parsed([Item(9, 2, Data), Item(13, 6, Data)], 7);
    ParsedIsOrdered(s, 0, 0, 0, num);
  }

  // Addresses of data show what has been written from a place below on, wherever they are.
  ghost predicate Overlaid(items: seq<Item>, before: seq<byte>, after: seq<byte>, at: nat, data: seq<byte>, n: int)
    requires Ordered(items, 0) && n <= |data|
  {
    forall p: nat {:trigger Mapped(items, after, p)} :: Mapped(items, after, p)
      == if IsData(items, p) && 0 <= Target(items, p) - at < n then data[Target(items, p) - at] else Mapped(items, before, p)
  }

  // An address whose place below is written is one of those written to.
  lemma WrittenPlace(items: seq<Item>, start: nat, start': nat, len: nat, p: nat)
    requires Ordered(items, 0) && Injective(items) && len > 0 && IsData(items, p) && OneItem(items, start, len, start', Data)
    ensures start' <= Target(items, p) < start' + len <==> start <= p < start + len
    ensures start <= p < start + len ==> Target(items, p) == start' + (p - start)
  {
    var t := Target(items, p);
    if start' <= t < start' + len {
      var q := start + (t - start');
      assert Target(items, q) == t && IsData(items, q);
    }
  }

  // If the places of different addresses differ, exactly the addresses written to show it.
  lemma WrittenPlaces(items: seq<Item>, before: seq<byte>, after: seq<byte>, start: nat, data: seq<byte>, n: int, len: nat, kind: Kind)
    requires Ordered(items, 0) && Injective(items) && n <= len <= |data| && OneItem(items, start, len, Target(items, start), kind)
    requires kind == Data || (kind == Zero && forall k :: 0 <= k < n ==> data[k] == 0)
    requires Overlaid(items, before, after, Target(items, start), data, if kind == Data then n else 0)
    ensures forall p: nat {:trigger Mapped(items, after, p)} :: Mapped(items, after, p) == if start <= p < start + n then data[p - start] else Mapped(items, before, p)
  {
    forall p: nat
      ensures Mapped(items, after, p) == if start <= p < start + n then data[p - start] else Mapped(items, before, p)
    {
      if n > 0 {
        assert start <= p < start + n ==> items[ItemAt(items, p, 0)].kind == kind;
        if kind == Data && IsData(items, p) {
          WrittenPlace(items, start, Target(items, start), n, p);
        }
      }
    }
  }

  // It has these bytes from an address on.
  ghost predicate Has(items: seq<Item>, bytes: seq<byte>, start: nat, data: seq<byte>)
    requires Ordered(items, 0)
  {
    forall p {:trigger Mapped(items, bytes, p)} :: start <= p < start + |data| ==> data[p - start] == Mapped(items, bytes, p)
  }

  lemma HasBoth(items: seq<Item>, bytes: seq<byte>, start: nat, a: seq<byte>, b: seq<byte>)
    requires Ordered(items, 0) && Has(items, bytes, start, a) && Has(items, bytes, start + |a|, b)
    ensures Has(items, bytes, start, a + b)
  {
    forall p | start <= p < start + |a + b|
      ensures (a + b)[p - start] == Mapped(items, bytes, p)
    {
      if p >= start + |a| {
        assert b[p - (start + |a|)] == Mapped(items, bytes, p);
      }
    }
  }

  // Reading stops only where there is data, and without an error only where the stream below
  // has ended.
  ghost predicate Stops(items: seq<Item>, bytes: seq<byte>, p: nat, failed: bool)
    requires Ordered(items, 0)
  {
    IsData(items, p) && (!failed ==> Target(items, p) >= |bytes|)
  }

  class Remap {
    const next: Store
    const num: Number
    var table: array<Item>
    var mapSize: nat
    var netOffset: int

    ghost function Items(): seq<Item>
      requires mapSize <= table.Length
      reads this, table
    {
      table[..mapSize]
    }

    ghost predicate Valid()
      reads this, table, next
    {
      mapSize <= table.Length && Ordered(Items(), 0) && next.Valid()
    }

    // What the stream has at an address.
    ghost function View(p: nat): byte
      requires Valid()
      reads this, table, next
    {
      Mapped(Items(), next.bytes, p)
    }

    constructor (next: Store, num: Number)
      ensures this.next == next && this.num == num && fresh(table)
    {
      this.next, this.num, mapSize, netOffset := next, num, 0, 0;
      table := new Item[0];
    }

    method StoreItem(countOnly: bool, count: nat, item: Item)
      requires !countOnly ==> count < table.Length
      modifies table
      ensures countOnly ==> table[..] == old(table[..])
      ensures !countOnly ==> table[..count + 1] == old(table[..count]) + [item]
    {
      if !countOnly {
        table[count] := item;
      }
    }

    // What has been stored of the items counted so far.
    ghost predicate Stored(countOnly: bool, count: int, done: seq<Item>)
      reads this`table, table
    {
      0 <= count == |done| && (!countOnly ==> count <= table.Length && table[..count] == done)
    }

    // One item of the string. An item that only moves the position is not counted.
    method ProcessItem(s: string, i: nat, countOnly: bool, count: nat, orig: nat, remapped: nat, ghost whole: Parsed, ghost done: seq<Item>)
      returns (ok: bool, i': nat, count': nat, orig': nat, remapped': nat, ghost done': seq<Item>)
      requires i <= |s| && ReadsForward(num) && Continues(whole, done, s, i, orig, remapped, num) && Stored(countOnly, count, done)
      requires !countOnly ==> whole.Parsed? && |whole.items| <= table.Length
      modifies table
      ensures i <= i' <= |s| && (!ok ==> whole == BadMap)
      ensures ok ==> Stored(countOnly, count', done')
      ensures ok && i == |s| ==> whole == Parsed(done', orig' - remapped')
      ensures ok && i < |s| ==> i < i' && Continues(whole, done', s, i', orig', remapped', num)
      ensures countOnly ==> table[..] == old(table[..])
    {
      i', count', orig', remapped', done' := i, count, orig, remapped, done;
      ParseStep(whole, done, s, i, orig, remapped, num);
      var l := Lex(s, i, num);
      ok := l.Lexed?;
      if ok {
        i' := l.next;
        if l.kind == Pos {
          orig' := l.len;
        } else {
          if l.kind != Skip {
            StoreItem(countOnly, count, Item(orig, remapped, l.kind));
            done' := done + [Item(orig, remapped, l.kind)];
            remapped', count' := remapped + l.len, count + 1;
          }
          if l.kind != Zero {
            orig' := orig + l.len;
          }
        }
      }
    }

    // process_map, once to count the items and once to fill them in: it counts the same both
    // times.
    method ProcessMap(s: string, countOnly: bool) returns (count: int)
      requires ReadsForward(num)
      requires !countOnly ==> Parse(s, 0, 0, 0, num).Parsed? && |Parse(s, 0, 0, 0, num).items| <= table.Length
      modifies this`netOffset, table
      ensures count < 0 <==> Parse(s, 0, 0, 0, num).BadMap?
      ensures count >= 0 ==> count == |Parse(s, 0, 0, 0, num).items| && netOffset == Parse(s, 0, 0, 0, num).net
      ensures if countOnly then table[..] == old(table[..]) else table[..count] == Parse(s, 0, 0, 0, num).items
    {
      ghost var whole, done := Parse(s, 0, 0, 0, num), [];
      var i: nat, orig: nat, remapped: nat, atEnd, ok := 0, 0, 0, false, true;
      count := 0;
      while ok && !atEnd
        invariant i <= |s| && (!ok ==> whole == BadMap)
        invariant ok ==> Stored(countOnly, count, done)
        invariant ok ==> if atEnd then whole == Parsed(done, orig - remapped) else Continues(whole, done, s, i, orig, remapped, num)
        invariant countOnly ==> table[..] == old(table[..])
        decreases ok, !atEnd, |s| - i
      {
        atEnd := i == |s|;
        ok, i, count, orig, remapped, done := ProcessItem(s, i, countOnly, count, orig, remapped, whole, done);
      }
      if ok {
        netOffset := orig - remapped;
      } else {
        count := -1;
      }
    }

    // Both passes, and the table between them.
    method Setup(s: string) returns (ok: bool)
      requires ReadsForward(num) && next.Valid()
      modifies this, table
      ensures ok <==> Parse(s, 0, 0, 0, num).Parsed?
      ensures ok ==> Valid() && Items() == Parse(s, 0, 0, 0, num).items && netOffset == Parse(s, 0, 0, 0, num).net && fresh(table)
    {
      var nrItems := ProcessMap(s, true);
      if nrItems < 0 {
        return false;
      }
      table := new Item[nrItems](_ => Item(0, 0, Data));
      var again := ProcessMap(s, false);
      mapSize := nrItems;
      ParsedIsOrdered(s, 0, 0, 0, num);
      ok := true;
    }

    // remap: the place below and what is there, with the length cut at the end of the item.
    method RemapAddress(start: nat, len: nat) returns (start': nat, len': nat, kind: Kind)
      requires Valid()
      ensures Clipped(Items(), start, len, len')
      ensures OneItem(Items(), start, len', start', kind)
      ensures kind == Data || kind == Zero
      ensures start' == Target(Items(), start) && kind == Items()[ItemAt(Items(), start, 0)].kind
    {
      var i := 0;
      len' := len;
      while i < mapSize - 1 && start >= table[i + 1].remapped
        invariant 0 <= i < mapSize && ItemAt(Items(), start, 0) == ItemAt(Items(), start, i)
      {
        i := i + 1;
      }
      if i < mapSize - 1 && len' > table[i + 1].remapped - start {
        len' := table[i + 1].remapped - start;
      }
      ItemEnds(Items(), start, len, len');
      start', kind := start - table[i].remapped + table[i].orig, table[i].kind;
    }

    method RemapPRead(start: nat, len: nat) returns (ret: int, data: seq<byte>)
      requires Valid()
      ensures ret <= len && |data| == if ret > 0 then ret else 0
      ensures Has(Items(), next.bytes, start, data)
      ensures ret <= 0 ==> len == 0 || Stops(Items(), next.bytes, start, ret < 0)
      ensures next.reliable ==> ret >= 0
    {
      var start', len', kind := RemapAddress(start, len);
      if len > 0 {
        assert ItemAt(Items(), start, 0) == ItemAt(Items(), start, 0);
      }
      if kind == Data {
        ret, data := next.PRead(start', len');
        forall p | start <= p < start + |data|
          ensures data[p - start] == Mapped(Items(), next.bytes, p)
        {
          assert next.At(start' + (p - start)) == data[p - start] && Target(Items(), p) == start' + (p - start);
        }
      } else {
        ret, data := len', seq(len', _ => 0);
      }
    }

    // force_pread over the shim: item by item, until the stream below ends or fails.
    method ForcePRead(start: nat, len: nat) returns (ret: int, data: seq<byte>, ghost failed: bool)
      requires Valid()
      ensures ret <= len && |data| == if ret > 0 then ret else 0
      ensures Has(Items(), next.bytes, start, data)
      ensures |data| < len ==> Stops(Items(), next.bytes, start + |data|, failed)
      ensures next.reliable ==> !failed
    {
      data, failed, ret := [], false, 0;
      var more := true;
      ghost var items, bytes := Items(), next.bytes;
      while |data| < len && more
        invariant |data| <= len && (next.reliable ==> !failed) && (!more ==> ret <= 0)
        invariant Has(items, bytes, start, data)
        invariant !more ==> Stops(items, bytes, start + |data|, failed)
        decreases more, len - |data|
      {
        var part;
        ret, part := RemapPRead(start + |data|, len - |data|);
        more, failed := ret > 0, ret < 0;
        if more {
          HasBoth(items, bytes, start, data, part);
          data := data + part;
        }
      }
      ret := if data == [] && !more then ret else |data|;
    }

    // A write inside one item of data.
    method WriteBelow(start': nat, data: seq<byte>, len: nat) returns (ret: int)
      requires Valid() && next.grain == 1 && len <= |data|
      modifies next
      ensures Valid() && ret <= len && (next.reliable && len > 0 ==> ret > 0)
      ensures Overlaid(Items(), old(next.bytes), next.bytes, start', data, ret) == true
    {
      ret := next.PWrite(start', data[..len]);
      forall p: nat | IsData(Items(), p)
        ensures Mapped(Items(), next.bytes, p) == if 0 <= Target(Items(), p) - start' < ret then data[Target(Items(), p) - start'] else Mapped(Items(), old(next.bytes), p)
      {
        assert next.At(Target(Items(), p)) == if start' <= Target(Items(), p) < start' + ret then data[..len][Target(Items(), p) - start'] else old(next.At(Target(Items(), p)));
      }
    }

    // A byte that must not be written, in the item of zeros the write begins in.
    ghost predicate Unwritable(start: nat, data: seq<byte>, k: nat)
      requires Valid() && k < |data|
      reads this, table, next
    {
      data[k] != 0 && ItemAt(Items(), start + k, 0) == ItemAt(Items(), start, 0)
    }

    // An address shows what has been written if its place below is one of those written to. If
    // the places of different addresses differ, exactly the addresses written to show it. Only
    // zeros may be written where there are zeros.
    method RemapPWrite(start: nat, data: seq<byte>) returns (ret: int)
      requires Valid() && next.grain == 1
      modifies next
      ensures Valid() && ret <= |data|
      ensures Overlaid(Items(), old(next.bytes), next.bytes, Target(Items(), start), data, if IsData(Items(), start) then ret else 0) == true
      ensures Injective(Items()) ==> forall p: nat {:trigger View(p)} :: View(p) == if start <= p < start + ret then data[p - start] else old(View(p))
      ensures data != [] && !IsData(Items(), start) ==>
        if exists k :: 0 <= k < |data| && Unwritable(start, data, k) then ret == -1 else ret > 0 && Clipped(Items(), start, |data|, ret)
      ensures data != [] && IsData(Items(), start) && next.reliable ==> ret > 0
    {
      var start', len', kind := RemapAddress(start, |data|);
      if kind == Data {
        ret := WriteBelow(start', data, len');
      } else {
        ret := WriteZeros(start, data, len');
      }
      if Injective(Items()) {
        WrittenPlaces(Items(), old(next.bytes), next.bytes, start, data, ret, len', kind);
      }
    }

    // The bytes are looked at up to the end of the item.
    method WriteZeros(start: nat, data: seq<byte>, len: nat) returns (ret: int)
      requires Valid() && Clipped(Items(), start, |data|, len)
      ensures ret == -1 || (ret == len && forall k :: 0 <= k < len ==> data[k] == 0)
      ensures ret == -1 <==> exists k :: 0 <= k < |data| && Unwritable(start, data, k)
    {
      var i := 0;
      while i < len && data[i] == 0
        invariant i <= len && forall k :: 0 <= k < i ==> data[k] == 0
      {
        i := i + 1;
      }
      if i < len {
        assert ItemAt(Items(), start + i, 0) == ItemAt(Items(), start, 0);
        assert Unwritable(start, data, i);
        ret := -1;
      } else {
        OthersBehind(Items(), start, |data|, len);
        ret := len;
      }
    }
  }
}
