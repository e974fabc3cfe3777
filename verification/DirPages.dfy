/** The listing of a directory in pages, and the client that follows them. */
module DirPages {
  import opened Bytes

  const REPLY_MAX := 516
  const INDEX_END: u16 := 0xffff
  const ORDINALS := 0x1_0000
  const LIST_PATH := 2
  const OFF_SIZE := 1
  const OFF_NAMELEN := 5
  const ENTRY_NAME := 6
  const NAME_MAX := 255
  const KIND_FILE: byte := 0
  const KIND_DIR: byte := 1

  datatype Entry = Entry(dir: bool, size: u32, name: seq<byte>)

  predicate Fine(e: Entry) {
    |e.name| <= NAME_MAX
  }

  /** What a listing says of an entry: a directory has no size. */
  function Seen(e: Entry): Entry {
    if e.dir then e.(size := 0) else e
  }

  function SeenAll(es: seq<Entry>): seq<Entry> {
    if es == [] then [] else [Seen(es[0])] + SeenAll(es[1..])
  }

  function Record(e: Entry): (s: seq<byte>)
    requires Fine(e)
    ensures |s| == ENTRY_NAME + |e.name|
  {
    Fields(e) + e.name
  }

  function Fields(e: Entry): (s: seq<byte>)
    requires Fine(e)
    ensures |s| == ENTRY_NAME
  {
    [if e.dir then KIND_DIR else KIND_FILE] + PutU32(Seen(e).size) + [|e.name|]
  }

  /** The records from entry i on that fit behind `used` bytes, and the index after them. */
  function Page(es: seq<Entry>, i: nat, used: nat): (p: (seq<byte>, nat))
    requires forall e :: e in es ==> Fine(e)
    requires used <= REPLY_MAX
    ensures used + |p.0| <= REPLY_MAX
    decreases |es| - i
  {
    if i >= |es| then ([], INDEX_END)
    else if used + ENTRY_NAME + |es[i].name| > REPLY_MAX then ([], i % 0x1_0000)
    else
      var (rest, next) := Page(es, i + 1, used + ENTRY_NAME + |es[i].name|);
      (Record(es[i]) + rest, next)
  }

  /** What one pass over the directory from entry i on puts behind `used` bytes, for a request
      that names `cursor`: the ordinals are 16 bits wide. */
  function Listed(es: seq<Entry>, i: nat, cursor: u16, used: nat): (p: (seq<byte>, nat))
    requires forall e :: e in es ==> Fine(e)
    requires used <= REPLY_MAX
    ensures used + |p.0| <= REPLY_MAX && p.1 <= 0xffff
    decreases |es| - i
  {
    if i >= |es| then ([], INDEX_END)
    else if i % ORDINALS < cursor then Listed(es, i + 1, cursor, used)
    else if used + ENTRY_NAME + |es[i].name| > REPLY_MAX then ([], i % ORDINALS)
    else
      var (rest, next) := Listed(es, i + 1, cursor, used + ENTRY_NAME + |es[i].name|);
      (Record(es[i]) + rest, next)
  }

  /** Without a wrap the pass gives the page that starts at the entry the request names. */
  lemma {:induction false} ListedIsPage(es: seq<Entry>, i: nat, cursor: u16, used: nat)
    requires forall e :: e in es ==> Fine(e)
    requires used <= REPLY_MAX && |es| <= ORDINALS
    ensures Listed(es, i, cursor, used) == Page(es, if i < cursor then cursor else i, used)
    decreases |es| - i
  {
    hide Record;
    if i < |es| {
      if i < cursor {
        ListedIsPage(es, i + 1, cursor, used);
      } else if used + ENTRY_NAME + |es[i].name| <= REPLY_MAX {
        ListedIsPage(es, i + 1, cursor, used + ENTRY_NAME + |es[i].name|);
      }
    }
  }

  /** The records of a page, as the client reads them. */
  function Parsed(s: seq<byte>): seq<Entry>
    decreases |s|
  {
    if |s| < ENTRY_NAME then []
    else
      var n: int := s[OFF_NAMELEN];
      if |s| < ENTRY_NAME + n then []
      else [Entry(s[0] == KIND_DIR, GetU32(s, OFF_SIZE), s[ENTRY_NAME..ENTRY_NAME + n])] + Parsed(s[ENTRY_NAME + n..])
  }

  lemma RecordParses(e: Entry, more: seq<byte>)
    requires Fine(e)
    ensures Parsed(Record(e) + more) == [Seen(e)] + Parsed(more)
  {
    var s, n, size := Record(e) + more, |e.name|, PutU32(Seen(e).size);
    assert s[0] == if e.dir then KIND_DIR else KIND_FILE;
    assert s[1] == size[0] && s[2] == size[1] && s[3] == size[2] && s[4] == size[3];
    assert s[OFF_NAMELEN] == n;
    assert s[ENTRY_NAME..ENTRY_NAME + n] == e.name && s[ENTRY_NAME + n..] == more;
  }

  /** Put the fields of a record before its name. */
  method PutFields(reply: array<byte>, used: nat, e: Entry)
    requires Fine(e) && used + ENTRY_NAME <= reply.Length
    modifies reply
    ensures reply[used..used + ENTRY_NAME] == Fields(e)
    ensures reply[..used] == old(reply[..used])
  {
    hide PutU32;
    var size := if e.dir then 0 else e.size;
    var field := PutU32(size);
    reply[used] := if e.dir then KIND_DIR else KIND_FILE;
    reply[used + 1], reply[used + 2], reply[used + 3], reply[used + 4] := field[0], field[1], field[2], field[3];
    reply[used + OFF_NAMELEN] := |e.name|;
    assert reply[used + 1..used + 5] == field;
    assert reply[used..used + ENTRY_NAME] == [reply[used]] + reply[used + 1..used + 5] + [reply[used + OFF_NAMELEN]];
  }

  /** Put one record into the reply. */
  method PutRecord(reply: array<byte>, used: nat, e: Entry)
    requires Fine(e) && used + ENTRY_NAME + |e.name| <= reply.Length
    modifies reply
    ensures reply[used..used + ENTRY_NAME + |e.name|] == Record(e)
    ensures reply[..used] == old(reply[..used])
  {
    hide Fields;
    PutFields(reply, used, e);
    ghost var start := reply[..used + ENTRY_NAME];
    forall k | 0 <= k < |e.name| {
      reply[used + ENTRY_NAME + k] := e.name[k];
    }
    var end := used + ENTRY_NAME + |e.name|;
    assert reply[..used + ENTRY_NAME] == start;
    assert reply[..used] == start[..used];
    assert reply[used..used + ENTRY_NAME] == start[used..];
    assert reply[used + ENTRY_NAME..end] == e.name;
    SliceJoins(reply[..], used, used + ENTRY_NAME, end);
  }

  /** The whole page is what was written so far and what the rest of the pass gives. */
  ghost predicate Writing(goal: (seq<byte>, nat), done: seq<byte>, es: seq<Entry>, i: nat, cursor: u16, used: nat) {
    && (forall e :: e in es ==> Fine(e)) && used <= REPLY_MAX
    && goal == (done + Listed(es, i, cursor, used).0, Listed(es, i, cursor, used).1)
  }

  lemma WritingStarts(es: seq<Entry>, cursor: u16)
    requires forall e :: e in es ==> Fine(e)
    ensures Writing(Listed(es, 0, cursor, LIST_PATH), [], es, 0, cursor, LIST_PATH)
  {
    assert [] + Listed(es, 0, cursor, LIST_PATH).0 == Listed(es, 0, cursor, LIST_PATH).0;
  }

  lemma WritingSkips(goal: (seq<byte>, nat), done: seq<byte>, es: seq<Entry>, i: nat, cursor: u16, used: nat)
    requires Writing(goal, done, es, i, cursor, used) && i < |es| && i % ORDINALS < cursor
    ensures Writing(goal, done, es, i + 1, cursor, used)
  {
    hide Record;
  }

  lemma WritingRecord(goal: (seq<byte>, nat), done: seq<byte>, es: seq<Entry>, i: nat, cursor: u16, used: nat)
    requires Writing(goal, done, es, i, cursor, used) && i < |es| && i % ORDINALS >= cursor
    requires used + ENTRY_NAME + |es[i].name| <= REPLY_MAX
    ensures Fine(es[i])
    ensures Writing(goal, done + Record(es[i]), es, i + 1, cursor, used + ENTRY_NAME + |es[i].name|)
  {
    hide Record;
    var e := es[i];
    assert Fine(e);
    var rest := Listed(es, i + 1, cursor, used + ENTRY_NAME + |e.name|).0;
    assert done + (Record(e) + rest) == (done + Record(e)) + rest;
  }

  lemma WritingEnds(goal: (seq<byte>, nat), done: seq<byte>, es: seq<Entry>, i: nat, cursor: u16, used: nat)
    requires Writing(goal, done, es, i, cursor, used)
    requires i >= |es| || (i % ORDINALS >= cursor && used + ENTRY_NAME + |es[i].name| > REPLY_MAX)
    ensures goal == (done, if i >= |es| then INDEX_END else i % ORDINALS)
  {
    hide Record;
    assert done + [] == done;
  }

  /** Add one record to the page, if it fits. */
  method AddEntry(es: seq<Entry>, i: nat, cursor: u16, reply: array<byte>, used: nat, ghost goal: (seq<byte>, nat))
    returns (fits: bool, used': nat)
    requires i < |es| && i % ORDINALS >= cursor && LIST_PATH <= used <= REPLY_MAX <= reply.Length
    requires Writing(goal, reply[LIST_PATH..used], es, i, cursor, used)
    modifies reply
    ensures fits ==> used <= used' <= REPLY_MAX && Writing(goal, reply[LIST_PATH..used'], es, i + 1, cursor, used')
    ensures !fits ==> used' == used && goal == (reply[LIST_PATH..used], i % ORDINALS)
  {
    hide Listed, Writing, Record;
    var e := es[i];
    ghost var done := reply[LIST_PATH..used];
    if used + ENTRY_NAME + |e.name| > REPLY_MAX {
      WritingEnds(goal, done, es, i, cursor, used);
      return false, used;
    }
    WritingRecord(goal, done, es, i, cursor, used);
    PutRecord(reply, used, e);
    fits, used' := true, used + ENTRY_NAME + |e.name|;
    assert reply[LIST_PATH..used] == reply[..used][LIST_PATH..];
    SliceJoins(reply[..], LIST_PATH, used, used');
  }

  /** Put the next index in front of the records. */
  method PutIndex(reply: array<byte>, used: nat, next: u16)
    requires LIST_PATH <= used <= reply.Length
    modifies reply
    ensures reply[..used] == PutU16(next) + old(reply[LIST_PATH..used])
  {
    ghost var records := reply[LIST_PATH..used];
    reply[0], reply[1] := next % 0x100, next / 0x100;
    assert reply[LIST_PATH..used] == records;
    SliceJoins(reply[..], 0, LIST_PATH, used);
    assert reply[..LIST_PATH] == [reply[0], reply[1]];
  }

  /** One page of the listing, from the entry number `index` on, of a directory of any size. */
  method FsList(es: seq<Entry>, index: u16, reply: array<byte>) returns (used: nat)
    requires forall e :: e in es ==> Fine(e)
    requires reply.Length >= REPLY_MAX
    modifies reply
    ensures var (records, next) := Listed(es, 0, index, LIST_PATH);
            used == LIST_PATH + |records| <= REPLY_MAX && reply[..used] == PutU16(next) + records
  {
    hide Listed, Writing, PutU16;
    used := LIST_PATH;
    var cursor: u16, ordinal: u16, i: nat := index, 0, 0;
    ghost var goal := Listed(es, 0, index, LIST_PATH);
    WritingStarts(es, index);
    assert reply[LIST_PATH..used] == [];
    while true
      invariant LIST_PATH <= used <= REPLY_MAX && i <= |es| && cursor == index && ordinal == i % ORDINALS
      invariant Writing(goal, reply[LIST_PATH..used], es, i, index, used)
      decreases |es| - i
    {
      if i == |es| {
        WritingEnds(goal, reply[LIST_PATH..used], es, i, index, used);
        cursor := INDEX_END;
        break;
      }
      i := i + 1;
      NextOrdinal(i - 1);
      var was := ordinal;
      ordinal := (ordinal + 1) % ORDINALS;
      if was < cursor {
        WritingSkips(goal, reply[LIST_PATH..used], es, i - 1, index, used);
        continue;
      }
      var fits;
      fits, used := AddEntry(es, i - 1, index, reply, used, goal);
      if !fits {
        cursor := (ordinal - 1) % ORDINALS;
        break;
      }
    }
    PutIndex(reply, used, cursor);
  }

  lemma NextOrdinal(i: nat)
    ensures (i % ORDINALS + 1) % ORDINALS == (i + 1) % ORDINALS
    ensures ((i % ORDINALS + 1) % ORDINALS - 1) % ORDINALS == i % ORDINALS
  {
    var q, r := i / ORDINALS, i % ORDINALS;
    if r == ORDINALS - 1 {
      assert i + 1 == (q + 1) * ORDINALS;
    } else {
      assert i + 1 == q * ORDINALS + (r + 1);
    }
  }

  lemma {:induction false} PageIndex(es: seq<Entry>, i: nat, used: nat)
    requires forall e :: e in es ==> Fine(e)
    requires used <= REPLY_MAX && |es| <= INDEX_END
    ensures var next := Page(es, i, used).1;
            (i <= next < |es|) || next == INDEX_END
    decreases |es| - i
  {
    if i < |es| && used + ENTRY_NAME + |es[i].name| <= REPLY_MAX {
      PageIndex(es, i + 1, used + ENTRY_NAME + |es[i].name|);
    }
  }

  // ---------------------------------------------------------------------------
  // Following the pages
  // ---------------------------------------------------------------------------

  /** A page holds the entries from its index up to the next index, or to the end. */
  lemma {:induction false} PageHolds(es: seq<Entry>, i: nat, used: nat)
    requires forall e :: e in es ==> Fine(e)
    requires i <= |es| <= INDEX_END && used <= REPLY_MAX
    ensures var (records, next) := Page(es, i, used);
            var to := if next == INDEX_END then |es| else next;
            i <= to <= |es| && Parsed(records) == SeenAll(es[i..to])
    decreases |es| - i
  {
    hide Record, Parsed, Seen, SeenAll, Page;
    PageUnfolds(es, i, used);
    if i < |es| && used + ENTRY_NAME + |es[i].name| <= REPLY_MAX {
      var used' := used + ENTRY_NAME + |es[i].name|;
      var (rest, next) := Page(es, i + 1, used');
      PageHolds(es, i + 1, used');
      RecordParses(es[i], rest);
      SeenFirst(es, i, if next == INDEX_END then |es| else next);
    } else {
      assert es[i..i] == [];
      NothingParses();
    }
  }

  lemma PageUnfolds(es: seq<Entry>, i: nat, used: nat)
    requires forall e :: e in es ==> Fine(e)
    requires i <= |es| <= INDEX_END && used <= REPLY_MAX
    ensures i < |es| ==> Fine(es[i])
    ensures i < |es| && used + ENTRY_NAME + |es[i].name| <= REPLY_MAX ==>
              var p := Page(es, i + 1, used + ENTRY_NAME + |es[i].name|);
              Page(es, i, used) == (Record(es[i]) + p.0, p.1)
    ensures i < |es| && used + ENTRY_NAME + |es[i].name| > REPLY_MAX ==> Page(es, i, used) == ([], i)
    ensures i == |es| ==> Page(es, i, used) == ([], INDEX_END)
  {
    hide Record;
  }

  lemma SeenFirst(es: seq<Entry>, i: nat, to: nat)
    requires i < to <= |es|
    ensures SeenAll(es[i..to]) == [Seen(es[i])] + SeenAll(es[i + 1..to])
  {
    hide Seen;
    assert es[i..to][1..] == es[i + 1..to];
  }

  lemma NothingParses()
    ensures Parsed([]) == [] && SeenAll([]) == []
  {
  }

  /** A page moves the index on, or is the last one. */
  lemma PageMoves(es: seq<Entry>, i: nat)
    requires forall e :: e in es ==> Fine(e)
    requires |es| <= INDEX_END
    ensures var next := Page(es, i, LIST_PATH).1;
            next == INDEX_END || i < next < |es|
  {
    if i < |es| {
      assert Fine(es[i]);
      PageIndex(es, i + 1, LIST_PATH + ENTRY_NAME + |es[i].name|);
    }
  }

  /** What a client collects that follows the index of each reply from `i` to the end. */
  function Follow(es: seq<Entry>, i: u16): (all: seq<Entry>)
    requires forall e :: e in es ==> Fine(e)
    requires |es| <= INDEX_END
    decreases |es| - i
  {
    PageMoves(es, i);
    ListedIsPage(es, 0, i, LIST_PATH);
    var (records, next) := Listed(es, 0, i, LIST_PATH);
    Parsed(records) + if next == INDEX_END then [] else Follow(es, next)
  }

  lemma {:induction false} SeenSplits(a: seq<Entry>, b: seq<Entry>)
    ensures SeenAll(a + b) == SeenAll(a) + SeenAll(b)
    decreases a
  {
    if a == [] {
      assert a + b == b;
    } else {
      assert (a + b)[1..] == a[1..] + b;
      SeenSplits(a[1..], b);
    }
  }

  lemma {:induction false} FollowFrom(es: seq<Entry>, i: u16)
    requires forall e :: e in es ==> Fine(e)
    requires i <= |es| <= INDEX_END
    ensures Follow(es, i) == SeenAll(es[i..])
    decreases |es| - i
  {
    hide Parsed, Page, Listed;
    PageMoves(es, i);
    PageHolds(es, i, LIST_PATH);
    ListedIsPage(es, 0, i, LIST_PATH);
    var (records, next) := Page(es, i, LIST_PATH);
    if next == INDEX_END {
      assert es[i..|es|] == es[i..];
    } else {
      FollowFrom(es, next);
      SeenSplits(es[i..next], es[next..]);
      assert es[i..] == es[i..next] + es[next..];
    }
  }

  lemma {:induction false} SeenIsEach(es: seq<Entry>)
    ensures |SeenAll(es)| == |es| && forall k :: 0 <= k < |es| ==> SeenAll(es)[k] == Seen(es[k])
    decreases es
  {
    if es != [] {
      SeenIsEach(es[1..]);
    }
  }

  /** An entry as it comes to the client: its name and kind, and the size of a file. */
  predicate SameEntry(e: Entry, seen: Entry) {
    && seen.name == e.name && seen.dir == e.dir
    && seen.size == if e.dir then 0 else e.size
  }

  /** Following the pages of a directory that does not change ends, and gives every entry
      exactly once, in order. */
  lemma EveryEntryOnce(es: seq<Entry>)
    requires forall e :: e in es ==> Fine(e)
    requires |es| <= INDEX_END
    ensures Follow(es, 0) == SeenAll(es)
    ensures |Follow(es, 0)| == |es|
    ensures forall k :: 0 <= k < |es| ==> SameEntry(es[k], Follow(es, 0)[k])
  {
    hide Follow;
    FollowFrom(es, 0);
    SeenIsEach(es);
    assert es[0..] == es;
  }

  /** The bytes of a record: the kind, four of the size, the length of the name, and the name. */
  lemma RecordLayout(e: Entry)
    requires |e.name| <= 255
    ensures var s, size := Record(e), if e.dir then 0 else e.size;
            && |s| == 6 + |e.name| && s[0] == (if e.dir then 1 else 0)
            && s[1] as int + 256 * (s[2] as int + 256 * (s[3] as int + 256 * s[4] as int)) == size
            && s[5] == |e.name| && s[6..] == e.name
  {
    hide PutU32;
    var field := PutU32(Seen(e).size);
    var s := Record(e);
    assert s[1] == field[0] && s[2] == field[1] && s[3] == field[2] && s[4] == field[3];
  }

  /** A page ends only where the next record would pass the 516 bytes of a reply, or at the end. */
  lemma {:induction false} PageIsFull(es: seq<Entry>, i: nat, used: nat)
    requires forall e :: e in es ==> Fine(e)
    requires i <= |es| <= 0xffff && used <= 516
    ensures var (records, next) := Page(es, i, used);
            && used + |records| <= 516
            && (next == 0xffff || (next < |es| && used + |records| + 6 + |es[next].name| > 516))
    decreases |es| - i
  {
    hide Record;
    if i < |es| && used + ENTRY_NAME + |es[i].name| <= REPLY_MAX {
      PageIsFull(es, i + 1, used + ENTRY_NAME + |es[i].name|);
    }
  }
}
