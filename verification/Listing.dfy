/** The listing of a directory as tg-usb gives it to its HTTP clients. */
module Listing {
  import opened Bytes
  import opened Wrappers
  import opened DirPages

  const BODY_MAX := 768
  const NAME_CAP := 64

  /** An entry as a client reads it. */
  datatype Item = Item(name: string, dir: bool, size: nat)

  // ---------------------------------------------------------------------------
  // The text
  // ---------------------------------------------------------------------------

  const HEAD := "{\"next\":"
  const ENTRIES := ",\"entries\":["
  const NAME := "{\"name\":\""
  const KIND := "\",\"kind\":\""
  const SIZE := "\",\"size\":"
  const END := "]}\n"

  /** A quote or a backslash would end a string of JSON early, a control code may not stand
      in one. */
  predicate Plain(c: char) {
    c != '"' && c != '\\' && c >= 0x20 as char
  }

  predicate PlainText(s: string) {
    forall i :: 0 <= i < |s| ==> Plain(s[i])
  }

  /** The plain characters of a name. */
  function Kept(src: seq<byte>): string {
    if src == [] then ""
    else
      var c := src[|src| - 1] as char;
      Kept(src[..|src| - 1]) + if Plain(c) then [c] else ""
  }

  function Cut(s: string, n: nat): string {
    if |s| <= n then s else s[..n]
  }

  function ItemOf(e: Entry): Item {
    Item(Cut(Kept(e.name), NAME_CAP - 1), e.dir, e.size)
  }

  function Items(es: seq<Entry>): (items: seq<Item>)
    ensures |items| == |es|
  {
    seq(|es|, i requires 0 <= i < |es| => ItemOf(es[i]))
  }

  function Digit(n: nat): char
    requires n < 10
  {
    (n + '0' as nat) as char
  }

  function Decimal(n: nat): (s: string)
    ensures |s| >= 1
  {
    if n < 10 then [Digit(n)] else Decimal(n / 10) + [Digit(n % 10)]
  }

  function KindText(dir: bool): string {
    if dir then "dir" else "file"
  }

  function ItemText(e: Item): string {
    NAME + (e.name + (KIND + (KindText(e.dir) + (SIZE + (Decimal(e.size) + "}")))))
  }

  function TailText(es: seq<Item>): string {
    if es == [] then "" else "," + (ItemText(es[0]) + TailText(es[1..]))
  }

  function ItemsText(es: seq<Item>): string {
    if es == [] then "" else ItemText(es[0]) + TailText(es[1..])
  }

  function HeadText(next: nat): string {
    HEAD + (Decimal(next) + ENTRIES)
  }

  function ListText(next: nat, es: seq<Item>): string {
    HeadText(next) + (ItemsText(es) + END)
  }

  // ---------------------------------------------------------------------------
  // A reader of the text
  // ---------------------------------------------------------------------------

  /** The rest of s behind the text that it must start with. */
  function After(s: string, text: string): Option<string> {
    if text <= s then Some(s[|text|..]) else None
  }

  /** A string of JSON up to its quote. Escapes are not known. */
  function StringBody(s: string): Option<(string, string)> {
    if s == "" then None
    else if s[0] == '"' then Some(("", s))
    else if !Plain(s[0]) then None
    else
      match StringBody(s[1..])
      case None => None
      case Some(r) => Some(([s[0]] + r.0, r.1))
  }

  function Number(s: string, n: nat): (nat, string) {
    if s != "" && '0' <= s[0] <= '9' then Number(s[1..], 10 * n + (s[0] as nat - '0' as nat)) else (n, s)
  }

  function ReadKind(s: string): Option<(bool, string)> {
    match StringBody(s)
    case None => None
    case Some(r) => if r.0 == "dir" then Some((true, r.1)) else if r.0 == "file" then Some((false, r.1)) else None
  }

  function ReadSize(s: string): Option<(nat, string)> {
    match After(s, SIZE)
    case None => None
    case Some(t) =>
      var n := Number(t, 0);
      match After(n.1, "}")
      case None => None
      case Some(u) => Some((n.0, u))
  }

  function ReadItem(s: string): Option<(Item, string)> {
    match After(s, NAME)
    case None => None
    case Some(t) =>
      match StringBody(t)
      case None => None
      case Some(name) =>
        match After(name.1, KIND)
        case None => None
        case Some(u) =>
          match ReadKind(u)
          case None => None
          case Some(kind) =>
            match ReadSize(kind.1)
            case None => None
            case Some(size) => Some((Item(name.0, kind.0, size.0), size.1))
  }

  function ReadTail(s: string): Option<(seq<Item>, string)>
    decreases |s|
  {
    match After(s, ",")
    case None => Some(([], s))
    case Some(t) =>
      match ReadItem(t)
      case None => None
      case Some(e) =>
        if |e.1| >= |s| then None
        else
          match ReadTail(e.1)
          case None => None
          case Some(r) => Some(([e.0] + r.0, r.1))
  }

  function ReadItems(s: string): Option<(seq<Item>, string)> {
    if After(s, "]").Some? then Some(([], s))
    else
      match ReadItem(s)
      case None => None
      case Some(e) =>
        match ReadTail(e.1)
        case None => None
        case Some(r) => Some(([e.0] + r.0, r.1))
  }

  function ReadList(s: string): Option<(nat, seq<Item>)> {
    match After(s, HEAD)
    case None => None
    case Some(t) =>
      var n := Number(t, 0);
      match After(n.1, ENTRIES)
      case None => None
      case Some(u) =>
        match ReadItems(u)
        case None => None
        case Some(r) => if r.1 == END then Some((n.0, r.0)) else None
  }

  lemma AfterText(text: string, more: string)
    ensures After(text + more, text) == Some(more)
  {
  }

  lemma {:induction false} NumberReads(n: nat, more: string)
    ensures Number(Decimal(n) + more, 0) == Number(more, n)
    decreases n
  {
    if n < 10 {
      assert ([Digit(n)] + more)[1..] == more;
    } else {
      var d := [Digit(n % 10)];
      NumberReads(n / 10, d + more);
      assert Decimal(n) + more == Decimal(n / 10) + (d + more);
      assert (d + more)[1..] == more;
    }
  }

  lemma {:induction false} StringReads(s: string, more: string)
    requires PlainText(s) && more != "" && more[0] == '"'
    ensures StringBody(s + more) == Some((s, more))
    decreases s
  {
    if s == "" {
      assert s + more == more;
    } else {
      assert (s + more)[1..] == s[1..] + more && (s + more)[0] == s[0];
      assert Plain(s[0]) && [s[0]] + s[1..] == s;
      StringReads(s[1..], more);
    }
  }

  lemma KindReads(dir: bool, more: string)
    requires more != "" && more[0] == '"'
    ensures ReadKind(KindText(dir) + more) == Some((dir, more))
  {
    StringReads(KindText(dir), more);
  }

  lemma SizeReads(size: nat, more: string)
    ensures ReadSize(SIZE + (Decimal(size) + ("}" + more))) == Some((size, more))
  {
    AfterText(SIZE, Decimal(size) + ("}" + more));
    NumberReads(size, "}" + more);
    AfterText("}", more);
  }

  lemma ItemReads(e: Item, more: string)
    requires PlainText(e.name)
    ensures ReadItem(ItemText(e) + more) == Some((e, more))
  {
    hide StringBody, ReadKind, ReadSize, PlainText, Plain;
    var t4 := SIZE + (Decimal(e.size) + ("}" + more));
    var t3 := KindText(e.dir) + t4;
    var t2 := KIND + t3;
    var t1 := e.name + t2;
    assert ItemText(e) + more == NAME + t1;
    AfterText(NAME, t1);
    StringReads(e.name, t2);
    AfterText(KIND, t3);
    KindReads(e.dir, t4);
    SizeReads(e.size, more);
  }

  ghost predicate Readable(es: seq<Item>) {
    forall e :: e in es ==> PlainText(e.name)
  }

  lemma {:induction false} TailReads(es: seq<Item>)
    requires Readable(es)
    ensures ReadTail(TailText(es) + END) == Some((es, END))
    decreases es
  {
    hide ItemText, ReadItem, PlainText;
    if es == [] {
      assert TailText(es) + END == END && END[0] == ']';
    } else {
      var rest := TailText(es[1..]) + END;
      var t := ItemText(es[0]) + rest;
      assert TailText(es) + END == "," + t;
      AfterText(",", t);
      assert es[0] in es;
      ItemReads(es[0], rest);
      TailReads(es[1..]);
      assert [es[0]] + es[1..] == es;
    }
  }

  lemma ItemStarts(e: Item, more: string)
    ensures After(ItemText(e) + more, "]").None?
  {
    assert (ItemText(e) + more)[0] == NAME[0];
  }

  lemma ItemsRead(es: seq<Item>)
    requires Readable(es)
    ensures ReadItems(ItemsText(es) + END) == Some((es, END))
  {
    hide ReadItem, PlainText, ItemText, After;
    if es == [] {
      assert ItemsText(es) + END == END;
      assert END == "]" + END[1..];
      AfterText("]", END[1..]);
    } else {
      var rest := TailText(es[1..]) + END;
      assert ItemsText(es) + END == ItemText(es[0]) + rest;
      assert es[0] in es;
      ItemStarts(es[0], rest);
      ItemReads(es[0], rest);
      TailReads(es[1..]);
      assert [es[0]] + es[1..] == es;
    }
  }

  /** The text of a list reads back. */
  lemma ListReads(next: nat, es: seq<Item>)
    requires Readable(es)
    ensures ReadList(ListText(next, es)) == Some((next, es))
  {
    hide ReadItems, ItemsText, Decimal, Readable;
    var t := ItemsText(es) + END;
    assert ListText(next, es) == HEAD + (Decimal(next) + (ENTRIES + t));
    AfterText(HEAD, Decimal(next) + (ENTRIES + t));
    NumberReads(next, ENTRIES + t);
    AfterText(ENTRIES, t);
    ItemsRead(es);
  }

  lemma Decimals()
    ensures Decimal(65535) == "65535" && Decimal(1024) == "1024" && Decimal(0) == "0"
  {
    assert Decimal(6) == "6" && Decimal(65) == "65" && Decimal(655) == "655" && Decimal(6553) == "6553";
    assert Decimal(1) == "1" && Decimal(10) == "10" && Decimal(102) == "102";
  }

  lemma TextOfFile(name: string)
    ensures ItemText(Item(name, false, 1024)) == "{\"name\":\"" + name + "\",\"kind\":\"file\",\"size\":1024}"
  {
    Decimals();
    hide Decimal;
    assert KIND + ("file" + (SIZE + ("1024" + "}"))) == "\",\"kind\":\"file\",\"size\":1024}";
  }

  lemma TextOfDir(name: string)
    ensures ItemText(Item(name, true, 0)) == "{\"name\":\"" + name + "\",\"kind\":\"dir\",\"size\":0}"
  {
    Decimals();
    hide Decimal;
    assert KIND + ("dir" + (SIZE + ("0" + "}"))) == "\",\"kind\":\"dir\",\"size\":0}";
  }

  lemma TextOfTwo(a: Item, b: Item)
    ensures ListText(65535, [a, b])
         == "{\"next\":65535,\"entries\":[" + ((ItemText(a) + ("," + ItemText(b))) + "]}\n")
  {
    Decimals();
    hide Decimal, ItemText;
    assert [a, b][1..] == [b] && [b][1..] == [];
    assert HeadText(65535) == "{\"next\":65535,\"entries\":[";
    assert TailText([]) == "" && ItemText(b) + "" == ItemText(b);
  }

  lemma {:induction false} KeptIsPlain(src: seq<byte>)
    ensures PlainText(Kept(src))
    decreases src
  {
    hide Plain;
    if src != [] {
      KeptIsPlain(src[..|src| - 1]);
    }
  }

  /** A name byte by byte: quotes, backslashes and control codes are dropped. */
  lemma KeptTakes(src: seq<byte>, b: byte)
    ensures Kept([]) == ""
    ensures Kept(src + [b]) == Kept(src) + if b == 0x22 || b == 0x5c || b < 0x20 then "" else [b as char]
  {
    assert (src + [b])[..|src|] == src;
  }

  /** A name as the board sends it. */
  function Chars(src: seq<byte>): string {
    if src == [] then "" else Chars(src[..|src| - 1]) + [src[|src| - 1] as char]
  }

  lemma {:induction false} KeptExactlyWhen(src: seq<byte>)
    ensures |Kept(src)| <= |src| == |Chars(src)|
    ensures |Kept(src)| == |src| <==> PlainText(Chars(src))
    ensures PlainText(Chars(src)) ==> Kept(src) == Chars(src)
    decreases src
  {
    hide Plain;
    if src != [] {
      var before := src[..|src| - 1];
      KeptExactlyWhen(before);
      assert Chars(src)[|src| - 1] == src[|src| - 1] as char;
      assert PlainText(Chars(src)) <==> PlainText(Chars(before)) && Plain(src[|src| - 1] as char) by {
        assert forall i :: 0 <= i < |before| ==> Chars(src)[i] == Chars(before)[i];
      }
    }
  }

  /** A name comes to the client as it is exactly when it is below 64 bytes without a quote, a
      backslash or a control code. */
  lemma NameIsKeptExactlyWhen(src: seq<byte>)
    ensures Cut(Kept(src), NAME_CAP - 1) == Chars(src) <==> |src| < NAME_CAP && PlainText(Chars(src))
  {
    hide PlainText;
    KeptExactlyWhen(src);
  }

  lemma ItemsAreReadable(es: seq<Entry>)
    ensures Readable(Items(es))
  {
    hide Kept, PlainText;
    forall e | e in Items(es)
      ensures PlainText(e.name)
    {
      var i :| 0 <= i < |es| && Items(es)[i] == e;
      KeptIsPlain(es[i].name);
      CutIsPlain(Kept(es[i].name), NAME_CAP - 1);
    }
  }

  lemma CutIsPlain(s: string, n: nat)
    requires PlainText(s)
    ensures PlainText(Cut(s, n))
  {
    hide Plain;
  }

  // ---------------------------------------------------------------------------
  // The response
  // ---------------------------------------------------------------------------

  /** The text of the first entries fits the body, with the byte behind it. */
  predicate HeadFits(next: nat, es: seq<Item>) {
    |HeadText(next) + ItemsText(es)| < BODY_MAX
  }

  /** How many entries are put before one does not fit. */
  function Shown(next: nat, es: seq<Item>): (k: nat)
    ensures k <= |es|
  {
    if es == [] then 0
    else
      var k := Shown(next, es[..|es| - 1]);
      if k == |es| - 1 && HeadFits(next, es) then |es| else k
  }

  /** The body of the response, or none when its end does not fit. */
  function Response(next: nat, es: seq<Item>): Option<string> {
    var text := ListText(next, es[..Shown(next, es)]);
    if |text| < BODY_MAX then Some(text) else None
  }

  lemma {:induction false} TailTextGrows(es: seq<Item>, e: Item)
    ensures TailText(es + [e]) == TailText(es) + ("," + ItemText(e))
    decreases es
  {
    hide ItemText;
    if es == [] {
      assert ([e])[1..] == [] && [] + [e] == [e];
    } else {
      assert (es + [e])[1..] == es[1..] + [e];
      TailTextGrows(es[1..], e);
    }
  }

  /** One more entry, with a comma unless it is the first. */
  lemma ItemsTextGrows(es: seq<Item>, e: Item)
    ensures ItemsText(es + [e]) == ItemsText(es) + ((if es == [] then "" else ",") + ItemText(e))
  {
    hide ItemText, TailText;
    if es == [] {
      assert [] + [e] == [e] && [e][1..] == [];
      assert TailText([]) == "" by {
        TailOfNothing();
      }
    } else {
      assert (es + [e])[1..] == es[1..] + [e];
      TailTextGrows(es[1..], e);
    }
  }

  lemma TailOfNothing()
    ensures TailText([]) == ""
  {
  }

  /** What the response says of a reply of the board. */
  function Answered(reply: seq<byte>): Option<string>
    requires |reply| >= LIST_PATH
  {
    Response(GetU16(reply, 0), Items(Parsed(reply[LIST_PATH..])))
  }

  /** Put a text behind the first `used` bytes, if a byte stays free; else the buffer keeps
      them. */
  method Append(out: array<char>, used: nat, text: string) returns (ok: bool, used': nat)
    requires used < out.Length
    modifies out
    ensures ok <==> used + |text| < out.Length
    ensures used' == (if ok then used + |text| else used) < out.Length
    ensures out[..used'] == if ok then old(out[..used]) + text else old(out[..used])
  {
    var room := out.Length - used - 1;
    var n := if |text| <= room then |text| else room;
    forall i | 0 <= i < n {
      out[used + i] := text[i];
    }
    out[used + n] := '\0';
    assert out[..used] == old(out[..used]);
    if |text| > room {
      return false, used;
    }
    ok, used' := true, used + n;
    assert out[used..used'] == text;
    SliceJoins(out[..], 0, used, used');
  }

  lemma {:induction false} KeptGrows(src: seq<byte>, i: nat)
    requires i <= |src|
    ensures Kept(src[..i]) <= Kept(src)
    decreases |src|
  {
    if i < |src| {
      KeptGrows(src[..|src| - 1], i);
      assert src[..|src| - 1][..i] == src[..i];
    } else {
      assert src[..i] == src;
    }
  }

  /** Copy the plain characters of a name, as many as there is room for. */
  method CopyName(out: array<char>, src: seq<byte>) returns (j: nat)
    requires out.Length > 0
    modifies out
    ensures j < out.Length && out[..j] == Cut(Kept(src), out.Length - 1) && out[j] == '\0'
  {
    hide Plain;
    j := 0;
    var i := 0;
    while i < |src| && j + 1 < out.Length
      invariant i <= |src| && j < out.Length
      invariant out[..j] == Kept(src[..i])
    {
      assert src[..i + 1][..i] == src[..i];
      var c := src[i] as char;
      if Plain(c) {
        out[j] := c;
        j := j + 1;
        assert out[..j] == out[..j - 1] + [c];
      }
      i := i + 1;
    }
    KeptGrows(src, i);
    assert i == |src| ==> src[..i] == src;
    ghost var name := out[..j];
    out[j] := '\0';
    assert out[..j] == name;
  }

  /** The record at this place of a reply, if it is whole. */
  function RecordAt(reply: seq<byte>, at: nat): (r: Option<(Entry, nat)>)
    ensures r.Some? ==> at + ENTRY_NAME <= r.value.1 <= |reply|
  {
    if at + ENTRY_NAME > |reply| || at + ENTRY_NAME + reply[at + OFF_NAMELEN] > |reply| then None
    else
      var end := at + ENTRY_NAME + reply[at + OFF_NAMELEN];
      Some((Entry(reply[at] == KIND_DIR, GetU32(reply, at + OFF_SIZE), reply[at + ENTRY_NAME..end]), end))
  }

  lemma RecordMoves(reply: seq<byte>, at: nat)
    requires at <= |reply|
    ensures RecordAt(reply[at..], 0) == match RecordAt(reply, at)
                                        case None => None
                                        case Some(r) => Some((r.0, r.1 - at))
  {
    var s := reply[at..];
    if at + ENTRY_NAME <= |reply| && at + ENTRY_NAME + reply[at + OFF_NAMELEN] <= |reply| {
      var end := ENTRY_NAME + reply[at + OFF_NAMELEN];
      assert s[OFF_NAMELEN] == reply[at + OFF_NAMELEN] && s[0] == reply[at];
      assert s[ENTRY_NAME..end] == reply[at + ENTRY_NAME..at + end];
      assert GetU32(s, OFF_SIZE) == GetU32(reply, at + OFF_SIZE);
    }
  }

  lemma FirstRecord(s: seq<byte>)
    ensures Parsed(s) == match RecordAt(s, 0)
                         case None => []
                         case Some(r) => [r.0] + Parsed(s[r.1..])
  {
  }

  lemma ParsedStep(reply: seq<byte>, at: nat)
    requires at <= |reply|
    ensures Parsed(reply[at..]) == match RecordAt(reply, at)
                                   case None => []
                                   case Some(r) => [r.0] + Parsed(reply[r.1..])
  {
    hide Parsed, RecordAt;
    FirstRecord(reply[at..]);
    RecordMoves(reply, at);
    var r := RecordAt(reply, at);
    assert r.Some? ==> reply[at..][r.value.1 - at..] == reply[r.value.1..];
  }

  lemma ItemsFirst(e: Entry, es: seq<Entry>)
    ensures Items([e] + es) == [ItemOf(e)] + Items(es)
  {
  }

  /** The loop has put the entries `done`, and the rest of the reply gives the others. */
  ghost predicate Putting(reply: seq<byte>, at: nat, done: seq<Item>, text: string)
    requires LIST_PATH <= at <= |reply|
  {
    var next := GetU16(reply, 0);
    && Items(Parsed(reply[LIST_PATH..])) == done + Items(Parsed(reply[at..]))
    && Shown(next, done) == |done| && text == HeadText(next) + ItemsText(done)
  }

  /** All entries that are shown are put. */
  ghost predicate AllPut(reply: seq<byte>, text: string)
    requires |reply| >= LIST_PATH
  {
    var next, es := GetU16(reply, 0), Items(Parsed(reply[LIST_PATH..]));
    text == HeadText(next) + ItemsText(es[..Shown(next, es)])
  }

  lemma {:induction false} ShownStops(next: nat, done: seq<Item>, e: Item, rest: seq<Item>)
    requires Shown(next, done) == |done| && !HeadFits(next, done + [e])
    ensures Shown(next, done + ([e] + rest)) == |done|
    decreases rest
  {
    hide HeadFits;
    if rest == [] {
      assert [e] + rest == [e] && (done + [e])[..|done|] == done;
    } else {
      var before := rest[..|rest| - 1];
      ShownStops(next, done, e, before);
      var all := done + ([e] + rest);
      assert all[..|all| - 1] == done + ([e] + before);
    }
  }

  lemma PuttingStarts(reply: seq<byte>)
    requires |reply| >= LIST_PATH
    ensures Putting(reply, LIST_PATH, [], HeadText(GetU16(reply, 0)))
  {
    hide HeadText, Parsed;
    assert HeadText(GetU16(reply, 0)) + "" == HeadText(GetU16(reply, 0));
    assert [] + Items(Parsed(reply[LIST_PATH..])) == Items(Parsed(reply[LIST_PATH..]));
  }

  function Separated(first: bool, e: Item): string {
    (if first then "" else ",") + ItemText(e)
  }

  lemma PuttingItem(reply: seq<byte>, at: nat, done: seq<Item>, text: string)
    requires LIST_PATH <= at <= |reply| && Putting(reply, at, done, text) && RecordAt(reply, at).Some?
    ensures var r, next := RecordAt(reply, at).value, GetU16(reply, 0);
            var e := ItemOf(r.0);
            && text + Separated(done == [], e) == HeadText(next) + ItemsText(done + [e])
            && (HeadFits(next, done + [e]) ==>
                  Putting(reply, r.1, done + [e], text + Separated(done == [], e)))
            && (!HeadFits(next, done + [e]) ==> AllPut(reply, text))
  {
    hide HeadText, Parsed, ItemsText, ItemText, ItemOf;
    var r, next := RecordAt(reply, at).value, GetU16(reply, 0);
    var e := ItemOf(r.0);
    var rest := Items(Parsed(reply[r.1..]));
    ParsedStep(reply, at);
    ItemsFirst(r.0, Parsed(reply[r.1..]));
    ItemsTextGrows(done, e);
    assert (done + [e]) + rest == done + ([e] + rest) && (done + [e])[..|done|] == done;
    if !HeadFits(next, done + [e]) {
      ShownStops(next, done, e, rest);
      assert (done + ([e] + rest))[..|done|] == done;
    }
  }

  lemma PuttingEnds(reply: seq<byte>, at: nat, done: seq<Item>, text: string)
    requires LIST_PATH <= at <= |reply| && Putting(reply, at, done, text) && RecordAt(reply, at).None?
    ensures AllPut(reply, text)
  {
    hide HeadText, Parsed, ItemsText;
    ParsedStep(reply, at);
    assert done + [] == done && done[..|done|] == done;
  }

  /** The entry of the record between `at` and `end`. */
  method ReadRecord(reply: seq<byte>, at: nat, end: nat) returns (e: Item)
    requires at + ENTRY_NAME <= |reply| && end == at + ENTRY_NAME + reply[at + OFF_NAMELEN] <= |reply|
    ensures RecordAt(reply, at).Some? && RecordAt(reply, at).value.1 == end
    ensures e == ItemOf(RecordAt(reply, at).value.0)
  {
    hide Kept, Cut, GetU32;
    var name := new char[NAME_CAP];
    var j := CopyName(name, reply[at + ENTRY_NAME..end]);
    e := Item(name[..j], reply[at] == KIND_DIR, GetU32(reply, at + OFF_SIZE));
  }

  /** Put the entry of the record between `at` and `end`. */
  method PutItem(reply: seq<byte>, at: nat, end: nat, body: array<char>, used: nat, first: bool, ghost done: seq<Item>)
    returns (fits: bool, used': nat, ghost done': seq<Item>)
    requires LIST_PATH <= at && at + ENTRY_NAME <= |reply|
    requires end == at + ENTRY_NAME + reply[at + OFF_NAMELEN] <= |reply|
    requires used < body.Length == BODY_MAX && first == (done == []) && Putting(reply, at, done, body[..used])
    modifies body
    ensures used' < body.Length
    ensures fits ==> done' != [] && Putting(reply, end, done', body[..used'])
    ensures !fits ==> AllPut(reply, body[..used'])
  {
    hide Parsed, Putting, AllPut, ItemText, ItemsText, HeadText, RecordAt, Separated, ItemOf;
    var e := ReadRecord(reply, at, end);
    PuttingItem(reply, at, done, body[..used]);
    done' := done + [e];
    fits, used' := Append(body, used, Separated(first, e));
  }

  lemma NoHead(reply: seq<byte>)
    requires |reply| >= LIST_PATH && |HeadText(GetU16(reply, 0))| >= BODY_MAX
    ensures Answered(reply) == None
  {
    hide Parsed, HeadText, ItemsText, Shown;
  }

  /** Answer the request for a page: the reply of the board as JSON, or an error when the end
      of it does not fit the body. */
  method RouteList(reply: seq<byte>, body: array<char>) returns (ok: bool, used: nat)
    requires |reply| >= LIST_PATH && body.Length == BODY_MAX
    modifies body
    ensures used <= body.Length
    ensures match Answered(reply) case None => !ok case Some(text) => ok && body[..used] == text
  {
    hide Parsed, Putting, AllPut, ItemsText, HeadText, Answered;
    var fits;
    fits, used := Append(body, 0, HeadText(GetU16(reply, 0)));
    if !fits {
      NoHead(reply);
      return false, 0;
    }
    var at, first := LIST_PATH, true;
    ghost var done: seq<Item> := [];
    PuttingStarts(reply);
    assert body[..used] == HeadText(GetU16(reply, 0));
    while at + ENTRY_NAME <= |reply|
      invariant LIST_PATH <= at <= |reply| && used < body.Length && first == (done == [])
      invariant Putting(reply, at, done, body[..used])
    {
      var end := at + ENTRY_NAME + reply[at + OFF_NAMELEN];
      if end > |reply| {
        PuttingEnds(reply, at, done, body[..used]);
        break;
      }
      fits, used, done := PutItem(reply, at, end, body, used, first, done);
      if !fits {
        break;
      }
      first := false;
      at := end;
    }
    if at + ENTRY_NAME > |reply| {
      PuttingEnds(reply, at, done, body[..used]);
    }
    EndPut(reply, body[..used]);
    ok, used := Append(body, used, END);
  }

  lemma EndPut(reply: seq<byte>, text: string)
    requires |reply| >= LIST_PATH && AllPut(reply, text)
    ensures Answered(reply) == if |text| + |END| < BODY_MAX then Some(text + END) else None
  {
    hide Parsed, ItemsText, HeadText, Shown;
    var next, es := GetU16(reply, 0), Items(Parsed(reply[LIST_PATH..]));
    assert text + END == ListText(next, es[..Shown(next, es)]);
  }

  // ---------------------------------------------------------------------------
  // A client that follows the pages
  // ---------------------------------------------------------------------------

  lemma HeadsGrow(next: nat, es: seq<Item>)
    requires es != []
    ensures |ItemsText(es[..|es| - 1])| < |ItemsText(es)|
  {
    hide ItemText, ItemsText;
    var e := es[|es| - 1];
    assert es[..|es| - 1] + [e] == es;
    ItemsTextGrows(es[..|es| - 1], e);
    ItemNotEmpty(e);
  }

  lemma ItemNotEmpty(e: Item)
    ensures |ItemText(e)| >= 33 + |e.name|
  {
  }

  /** The entries are all shown exactly when the text of all of them fits. */
  lemma {:induction false} ShownExactlyWhen(next: nat, es: seq<Item>)
    requires |HeadText(next)| < BODY_MAX
    ensures Shown(next, es) == |es| <==> HeadFits(next, es)
    decreases es
  {
    hide ItemsText, HeadText;
    if es == [] {
      assert ItemsText([]) == "" by {
        NoItems();
      }
    } else {
      ShownExactlyWhen(next, es[..|es| - 1]);
      HeadsGrow(next, es);
    }
  }

  /** What is put is the most that fits: its text does, and with one more entry it does not. */
  lemma {:induction false} ShownIsLargest(next: nat, es: seq<Item>)
    requires |HeadText(next)| < 768
    ensures var k := Shown(next, es);
            && |HeadText(next) + ItemsText(es[..k])| < 768
            && (k < |es| ==> |HeadText(next) + ItemsText(es[..k + 1])| >= 768)
    decreases es
  {
    hide ItemsText, HeadText;
    NoItems();
    if es != [] {
      var init := es[..|es| - 1];
      ShownIsLargest(next, init);
      var k := Shown(next, init);
      assert es[..|es|] == es && (k < |init| ==> es[..k + 1] == init[..k + 1]) && es[..k] == init[..k];
    }
  }

  lemma NoItems()
    ensures ItemsText([]) == ""
  {
  }

  /** Every entry of a page is in the response exactly when the whole text is below the size
      of the body; else there are fewer, or there is an error. */
  lemma ResponseIsWholeExactlyWhen(next: nat, es: seq<Item>)
    ensures Response(next, es) == Some(ListText(next, es)) <==> |ListText(next, es)| < BODY_MAX
    ensures |ListText(next, es)| >= BODY_MAX ==> Response(next, es).None? || Shown(next, es) < |es|
  {
    hide ItemsText, HeadText, Shown;
    assert es[..|es|] == es;
    var k := Shown(next, es);
    assert |ListText(next, es)| == |HeadText(next)| + |ItemsText(es)| + |END|;
    if |HeadText(next)| < BODY_MAX {
      ShownExactlyWhen(next, es);
    }
    if Response(next, es) == Some(ListText(next, es)) {
      assert |ListText(next, es)| < BODY_MAX;
    }
  }

  /** The entries from `i` on that the page of the board gives. */
  function PageEnd(es: seq<Entry>, i: u16): (to: nat)
    requires (forall e :: e in es ==> Fine(e)) && i <= |es| <= INDEX_END
    ensures i <= to <= |es|
  {
    PageHolds(es, i, LIST_PATH);
    var next := Page(es, i, LIST_PATH).1;
    if next == INDEX_END then |es| else next
  }

  function PageText(es: seq<Entry>, i: u16): string
    requires (forall e :: e in es ==> Fine(e)) && i <= |es| <= INDEX_END
  {
    ListText(Page(es, i, LIST_PATH).1, Items(SeenAll(es[i..PageEnd(es, i)])))
  }

  /** The text of every page from `i` on fits the response. */
  predicate PagesFit(es: seq<Entry>, i: u16)
    requires (forall e :: e in es ==> Fine(e)) && i <= |es| <= INDEX_END
    decreases |es| - i
  {
    PageMoves(es, i);
    var next := Page(es, i, LIST_PATH).1;
    |PageText(es, i)| < BODY_MAX && (next == INDEX_END || PagesFit(es, next))
  }

  /** The response to the request for the page from `i` on. */
  lemma PageAnswered(es: seq<Entry>, i: u16)
    requires (forall e :: e in es ==> Fine(e)) && i <= |es| <= INDEX_END
    ensures var (records, next) := Listed(es, 0, i, LIST_PATH);
            && next == Page(es, i, LIST_PATH).1
            && Answered(PutU16(next) + records) == Response(next, Items(SeenAll(es[i..PageEnd(es, i)])))
  {
    hide Parsed, SeenAll, Listed, Page, Response;
    ListedIsPage(es, 0, i, LIST_PATH);
    PageHolds(es, i, LIST_PATH);
    var (records, next) := Listed(es, 0, i, LIST_PATH);
    assert (PutU16(next) + records)[LIST_PATH..] == records;
    FieldInFront(next, records);
  }

  lemma FieldInFront(w: u16, more: seq<byte>)
    ensures GetU16(PutU16(w) + more, 0) == w
  {
  }

  lemma ShownRead(next: nat, es: seq<Entry>)
    ensures var items := Items(es);
            Response(next, items).Some? ==> ReadList(Response(next, items).value)
                                            == Some((next, items[..Shown(next, items)]))
  {
    hide ReadList, ListText, Readable, ItemOf;
    var items := Items(es);
    var k := Shown(next, items);
    assert items[..k] == Items(es[..k]);
    ItemsAreReadable(es[..k]);
    ListReads(next, items[..k]);
  }

  /** What a client of tg-usb reads that follows the index of each response from `i` on, and
      stops at an error. */
  function Collected(es: seq<Entry>, i: u16): seq<Item>
    requires (forall e :: e in es ==> Fine(e)) && i <= |es| <= INDEX_END
    decreases |es| - i
  {
    PageAnswered(es, i);
    PageMoves(es, i);
    ShownRead(Page(es, i, LIST_PATH).1, SeenAll(es[i..PageEnd(es, i)]));
    var (records, next) := Listed(es, 0, i, LIST_PATH);
    match Answered(PutU16(next) + records)
    case None => []
    case Some(text) =>
      match ReadList(text)
      case None => []
      case Some(r) => r.1 + if r.0 == INDEX_END then [] else Collected(es, r.0)
  }

  lemma EmptyListFits(next: u16)
    ensures |ListText(next, [])| < BODY_MAX
  {
    assert |Decimal(next)| <= 5 by {
      Digits(next / 10);
    }
  }

  lemma Digits(n: nat)
    requires n < 10_000
    ensures |Decimal(n)| <= 4
  {
    var n1 := n / 10;
    var n2 := n1 / 10;
    assert n1 < 1000 && n2 < 100;
    assert |Decimal(n2 / 10)| == 1;
    assert |Decimal(n2)| <= 2;
    assert |Decimal(n1)| <= 3;
  }

  /** One page: its entries and what follows, or fewer. */
  lemma PageCollected(es: seq<Entry>, i: u16)
    requires (forall e :: e in es ==> Fine(e)) && i <= |es| <= INDEX_END
    ensures var (next, to) := (Page(es, i, LIST_PATH).1, PageEnd(es, i));
            && (next == INDEX_END || i < next < |es|)
            && var rest := if next == INDEX_END then [] else Collected(es, next);
               && (|PageText(es, i)| < BODY_MAX ==> Collected(es, i) == Items(SeenAll(es[i..to])) + rest)
               && (|PageText(es, i)| >= BODY_MAX ==> |Collected(es, i)| < to - i + |rest|)
  {
    hide Answered, ReadList, Response, ListText, Listed, Page, SeenAll, Items;
    var (next, to) := (Page(es, i, LIST_PATH).1, PageEnd(es, i));
    var seen := SeenAll(es[i..to]);
    PageMoves(es, i);
    PageAnswered(es, i);
    ShownRead(next, seen);
    SeenIsEach(es[i..to]);
    ResponseIsWholeExactlyWhen(next, Items(seen));
    EmptyListFits(next);
    assert to == i ==> Items(seen) == [];
    if |PageText(es, i)| < BODY_MAX {
      ListShown(next, Items(seen));
    } else if to == i {
      assert false;
    }
  }

  /** A whole response shows all entries. */
  lemma ListShown(next: nat, es: seq<Item>)
    requires |ListText(next, es)| < BODY_MAX
    ensures es[..Shown(next, es)] == es
  {
    hide ItemsText, HeadText;
    ShownExactlyWhen(next, es);
  }

  lemma ItemsJoin(a: seq<Entry>, b: seq<Entry>)
    ensures Items(SeenAll(a + b)) == Items(SeenAll(a)) + Items(SeenAll(b))
  {
    hide ItemOf;
    SeenSplits(a, b);
  }

  lemma {:induction false} CollectedFrom(es: seq<Entry>, i: u16)
    requires (forall e :: e in es ==> Fine(e)) && i <= |es| <= INDEX_END
    ensures |Collected(es, i)| <= |es| - i
    ensures if PagesFit(es, i) then Collected(es, i) == Items(SeenAll(es[i..])) else |Collected(es, i)| < |es| - i
    decreases |es| - i
  {
    hide Collected, PageText, Page, SeenAll, Items;
    var (next, to) := (Page(es, i, LIST_PATH).1, PageEnd(es, i));
    PageCollected(es, i);
    SeenIsEach(es[i..to]);
    if next == INDEX_END {
      assert es[i..to] == es[i..];
      assert Items(SeenAll(es[i..to])) + [] == Items(SeenAll(es[i..to]));
    } else {
      CollectedFrom(es, next);
      ItemsJoin(es[i..to], es[to..]);
      assert es[i..] == es[i..to] + es[to..];
    }
  }

  /** A client that follows the pages of a directory through tg-usb reads every entry once, in
      order, exactly when the text of every page fits the response; else it reads fewer. */
  lemma EveryEntryShownExactlyWhen(es: seq<Entry>)
    requires (forall e :: e in es ==> Fine(e)) && |es| <= INDEX_END
    ensures Collected(es, 0) == Items(SeenAll(es)) <==> PagesFit(es, 0)
    ensures !PagesFit(es, 0) ==> |Collected(es, 0)| < |es|
  {
    hide Collected, PagesFit, Items, SeenAll;
    CollectedFrom(es, 0);
    SeenIsEach(es);
    assert es[0..] == es;
  }

  /** What it reads of an entry: the kind, the size of a file, and the name, unchanged when that
      is below 64 bytes without a quote, a backslash or a control code. */
  predicate SameItem(e: Entry, item: Item) {
    && item.dir == e.dir && item.size == (if e.dir then 0 else e.size)
    && |item.name| <= 63
    && (|e.name| < 64 && (forall b :: b in e.name ==> b >= 0x20 && b != 0x22 && b != 0x5c) ==>
          Spells(item.name, e.name))
  }

  /** The characters are those bytes. */
  predicate Spells(text: string, bytes: seq<byte>) {
    |text| == |bytes| && forall i :: 0 <= i < |bytes| ==> text[i] as int == bytes[i]
  }

  lemma {:induction false} CharsSpell(src: seq<byte>)
    ensures Spells(Chars(src), src)
    decreases src
  {
    if src != [] {
      CharsSpell(src[..|src| - 1]);
    }
  }

  lemma ItemIsSame(e: Entry)
    ensures SameItem(e, ItemOf(Seen(e)))
  {
    hide Kept;
    CharsSpell(e.name);
    NameIsKeptExactlyWhen(e.name);
    if forall b :: b in e.name ==> b >= 0x20 && b != 0x22 && b != 0x5c {
      forall i | 0 <= i < |e.name|
        ensures Plain(Chars(e.name)[i])
      {
        assert e.name[i] in e.name;
      }
    }
  }

  /** Thus where every page fits, each item that it reads is that entry. */
  lemma ShownEntriesAreThose(es: seq<Entry>)
    requires (forall e :: e in es ==> Fine(e)) && |es| <= INDEX_END && PagesFit(es, 0)
    ensures |Collected(es, 0)| == |es|
    ensures forall k :: 0 <= k < |es| ==> SameItem(es[k], Collected(es, 0)[k])
  {
    hide Collected, PagesFit, ItemOf, SameItem, SeenAll;
    EveryEntryShownExactlyWhen(es);
    SeenIsEach(es);
    forall k | 0 <= k < |es|
      ensures SameItem(es[k], Collected(es, 0)[k])
    {
      ItemIsSame(es[k]);
    }
  }

  // ---------------------------------------------------------------------------
  // Directories that do not show
  // ---------------------------------------------------------------------------

  const MANY := 22
  const SHORT := 17

  /** Many short names make one page. */
  lemma {:induction false} PageTakes(es: seq<Entry>, i: nat, used: nat, k: nat)
    requires forall e :: e in es ==> Fine(e) && |e.name| <= SHORT
    requires i + k <= |es| <= INDEX_END && used + (ENTRY_NAME + SHORT) * k <= REPLY_MAX
    ensures Page(es, i, used).1 >= i + k || Page(es, i, used).1 == INDEX_END
    decreases k
  {
    hide Record;
    if k > 0 {
      assert es[i] in es;
      PageTakes(es, i + 1, used + ENTRY_NAME + |es[i].name|, k - 1);
    } else {
      PageIndex(es, i, used);
    }
  }

  lemma {:induction false} TextOfMany(es: seq<Item>)
    ensures |TailText(es)| >= 34 * |es|
    decreases es
  {
    hide ItemText;
    if es != [] {
      TextOfMany(es[1..]);
      ItemNotEmpty(es[0]);
    }
  }

  lemma ManyDoNotFit(next: nat, es: seq<Item>)
    requires |es| >= MANY
    ensures |ListText(next, es)| >= BODY_MAX
  {
    hide ItemText;
    TextOfMany(es[1..]);
    ItemNotEmpty(es[0]);
  }

  /** Of every directory of 22 entries or more whose names have 17 bytes at most, such a client
      does not read them all. */
  lemma ManyShortNamesAreLost(es: seq<Entry>)
    requires forall e :: e in es ==> Fine(e) && |e.name| <= SHORT
    requires MANY <= |es| <= INDEX_END
    ensures |Collected(es, 0)| < |es|
  {
    hide ListText, Page, Items, SeenAll, Collected;
    PageTakes(es, 0, LIST_PATH, MANY);
    var to := PageEnd(es, 0);
    SeenIsEach(es[0..to]);
    ManyDoNotFit(Page(es, 0, LIST_PATH).1, Items(SeenAll(es[0..to])));
    EveryEntryShownExactlyWhen(es);
  }
}
