/** The settings store: two records in flash, written in turn, with a cache in memory. */
module Store {
  import opened Bytes
  import opened Wrappers
  import Crc

  const MAGIC: u32 := 0x484b4746
  const VERSION: u16 := 1
  const BLOCK := 256
  const OFF_SEQ := 4
  const OFF_LENGTH := 10
  const OFF_SETTINGS := 12
  const SETTINGS_MAX := 64
  const MAX_SEQ: u32 := 0xffff_ffff

  /** The settings of this build as bytes, and what a record lacking some takes. */
  const DEFAULTS: seq<byte> := [0, 0, 5, 8, 0, 0, 0xff, 0xff, 0xff, 0xff]
  const CONFIG_LEN := 10

  type Config = c: seq<byte> | |c| == CONFIG_LEN witness DEFAULTS
  type Block = b: seq<byte> | |b| == BLOCK witness seq(BLOCK, _ => 0xff)

  datatype Record = Record(seqNo: u32, config: Config)

  /** The settings that a record body of any length gives: the fields that both know
      from the record, the others from the defaults. */
  function Overlay(body: seq<byte>): Config {
    if |body| >= CONFIG_LEN then body[..CONFIG_LEN] else body + DEFAULTS[|body|..]
  }

  function ReadSlot(block: Block): Option<Record> {
    if GetU32(block, 0) != MAGIC then None
    else
      var len := GetU16(block, OFF_LENGTH);
      if len > SETTINGS_MAX then None
      else if Crc.Check(block[..OFF_SETTINGS + len]) != GetU16(block, OFF_SETTINGS + len) then None
      else Some(Record(GetU32(block, OFF_SEQ), Overlay(block[OFF_SETTINGS..OFF_SETTINGS + len])))
  }

  function Covered(seqNo: u32, version: u16, body: seq<byte>): (s: seq<byte>)
    requires |body| <= SETTINGS_MAX
    ensures |s| == OFF_SETTINGS + |body|
  {
    PutU32(MAGIC) + PutU32(seqNo) + PutU16(version) + PutU16(|body|) + body
  }

  /** A record of some version; the rest of the block stays erased. */
  function RecordBlock(seqNo: u32, version: u16, body: seq<byte>): Block
    requires |body| <= SETTINGS_MAX
  {
    var s := Covered(seqNo, version, body);
    s + PutU16(Crc.Check(s)) + seq(BLOCK - |s| - 2, _ => 0xff)
  }

  /** A record reads back, from an older layout and from a newer one as well. */
  lemma AnyVersionReadsBack(seqNo: u32, version: u16, body: seq<byte>)
    requires |body| <= SETTINGS_MAX
    ensures ReadSlot(RecordBlock(seqNo, version, body)) == Some(Record(seqNo, Overlay(body)))
  {
    hide Overlay;
    var b, s := RecordBlock(seqNo, version, body), Covered(seqNo, version, body);
    var end := OFF_SETTINGS + |body|;
    var magic, number, len, crc := PutU32(MAGIC), PutU32(seqNo), PutU16(|body|), PutU16(Crc.Check(s));
    assert b[..end] == s;
    assert s[0] == magic[0] && s[1] == magic[1] && s[2] == magic[2] && s[3] == magic[3];
    assert s[4] == number[0] && s[5] == number[1] && s[6] == number[2] && s[7] == number[3];
    assert s[10] == len[0] && s[11] == len[1];
    assert b[end] == crc[0] && b[end + 1] == crc[1];
    assert s[OFF_SETTINGS..] == body;
    assert b[OFF_SETTINGS..end] == body;
  }

  /** Byte k of the settings: from the record as far as that goes, else the default. */
  lemma OverlayAt(body: seq<byte>, k: nat)
    requires k < 10
    ensures Overlay(body)[k] == if k < |body| then body[k] else [0, 0, 5, 8, 0, 0, 255, 255, 255, 255][k]
  {
  }

  /** The bytes of a record: "FGKH", the sequence, the version, the length of the settings, the
      settings, and the check value of all of these. */
  lemma RecordLayout(seqNo: u32, version: u16, body: seq<byte>)
    requires |body| <= 64
    ensures var b, end := RecordBlock(seqNo, version, body), 12 + |body|;
            && |b| == 256 && b[..4] == [0x46, 0x47, 0x4b, 0x48]
            && GetU32(b, 4) == seqNo && GetU16(b, 8) == version && GetU16(b, 10) == |body|
            && b[12..end] == body && GetU16(b, end) == Crc.Check(b[..end])
            && forall k :: end + 2 <= k < 256 ==> b[k] == 0xff
  {
    var b, s, end := RecordBlock(seqNo, version, body), Covered(seqNo, version, body), 12 + |body|;
    var magic, number, crc := PutU32(MAGIC), PutU32(seqNo), PutU16(Crc.Check(s));
    var of, len := PutU16(version), PutU16(|body|);
    assert magic == [0x46, 0x47, 0x4b, 0x48];
    hide PutU32, PutU16, Crc.Check;
    assert b[..end] == s;
    assert s[..4] == magic && s[12..] == body;
    assert s[4] == number[0] && s[5] == number[1] && s[6] == number[2] && s[7] == number[3];
    assert s[8] == of[0] && s[9] == of[1] && s[10] == len[0] && s[11] == len[1];
    assert b[end] == crc[0] && b[end + 1] == crc[1];
    assert b[..4] == s[..4] && b[12..end] == s[12..];
  }

  /** A block reads as a record exactly when it starts with the bytes of one, of any version;
      the bytes behind the check value do not matter. */
  lemma ReadsExactlyWhen(block: Block)
    ensures ReadSlot(block).Some? <==>
            exists seqNo: u32, version: u16, body: seq<byte> :: SameRecord(block, seqNo, version, body)
  {
    hide RecordBlock;
    if seqNo: u32, version: u16, body: seq<byte> :| SameRecord(block, seqNo, version, body) {
      RecordIsRead(block, seqNo, version, body);
    }
    if ReadSlot(block).Some? {
      ReadIsRecord(block);
    }
  }

  ghost predicate SameRecord(block: Block, seqNo: u32, version: u16, body: seq<byte>) {
    |body| <= 64 && block[..14 + |body|] == RecordBlock(seqNo, version, body)[..14 + |body|]
  }

  lemma RecordIsRead(block: Block, seqNo: u32, version: u16, body: seq<byte>)
    requires SameRecord(block, seqNo, version, body)
    ensures ReadSlot(block) == Some(Record(seqNo, Overlay(body)))
  {
    hide RecordBlock, Overlay, ReadSlot, GetU16, GetU32;
    AnyVersionReadsBack(seqNo, version, body);
    RecordLayout(seqNo, version, body);
    SameFrontReads(block, RecordBlock(seqNo, version, body));
  }

  /** Two blocks with the same bytes up to the check value read the same. */
  lemma SameFrontReads(a: Block, b: Block)
    requires var len := GetU16(b, 10); len <= 64 && a[..14 + len] == b[..14 + len]
    ensures ReadSlot(a) == ReadSlot(b)
  {
    var len := GetU16(b, 10);
    SameFront(a, b, 14 + len);
    SameSlices(a, b, 14 + len, 12 + len);
    hide GetU16, GetU32, Overlay;
  }

  lemma SameSlices(s: seq<byte>, t: seq<byte>, n: nat, end: nat)
    requires 12 <= end <= n && n <= |s| && n <= |t| && s[..n] == t[..n]
    ensures s[..end] == t[..end] && s[12..end] == t[12..end]
  {
    assert s[..end] == s[..n][..end] && t[..end] == t[..n][..end];
    assert s[12..end] == s[..n][12..end] && t[12..end] == t[..n][12..end];
  }

  /** Fields inside an equal front are equal. */
  lemma SameFront(s: seq<byte>, t: seq<byte>, n: nat)
    requires 12 <= n - 2 && n <= |s| && n <= |t| && s[..n] == t[..n]
    ensures GetU32(s, 0) == GetU32(t, 0) && GetU32(s, 4) == GetU32(t, 4) && GetU16(s, 10) == GetU16(t, 10)
    ensures GetU16(s, n - 2) == GetU16(t, n - 2)
  {
    assert forall k :: 0 <= k < n ==> s[k] == s[..n][k] && t[k] == t[..n][k];
  }

  lemma ReadIsRecord(block: Block)
    requires ReadSlot(block).Some?
    ensures var len := GetU16(block, 10);
            len <= 64 && SameRecord(block, GetU32(block, 4), GetU16(block, 8), block[12..12 + len])
  {
    hide Overlay;
    var seqNo, version, len := GetU32(block, 4), GetU16(block, 8), GetU16(block, 10);
    var body, end := block[12..12 + len], 12 + len;
    PutGet32(block, 0);
    PutGet32(block, 4);
    PutGet16(block, 8);
    PutGet16(block, 10);
    PutGet16(block, end);
    hide PutU32, PutU16;
    SliceJoins(block, 0, 4, 8);
    SliceJoins(block, 0, 8, 10);
    SliceJoins(block, 0, 10, 12);
    SliceJoins(block, 0, 12, end);
    SliceJoins(block, 0, end, end + 2);
    assert block[..end] == Covered(seqNo, version, body);
  }

  lemma PutGet16(s: seq<byte>, at: nat)
    requires at + 2 <= |s|
    ensures PutU16(GetU16(s, at)) == s[at..at + 2]
  {
  }

  lemma PutGet32(s: seq<byte>, at: nat)
    requires at + 4 <= |s|
    ensures PutU32(GetU32(s, at)) == s[at..at + 4]
  {
    var b0: int, b1: int, b2: int, b3: int := s[at], s[at + 1], s[at + 2], s[at + 3];
    var r2 := b2 + 0x100 * b3;
    var r1 := b1 + 0x100 * r2;
    var w := GetU32(s, at);
    assert w == b0 + 0x100 * r1;
    assert w / 0x100 == r1 && r1 / 0x100 == r2 && r2 / 0x100 == b3;
  }

  const ERASED: Block := seq(BLOCK, _ => 0xff)

  lemma ErasedIsUnreadable()
    ensures ReadSlot(ERASED).None?
  {
  }

  // ---------------------------------------------------------------------------
  // Load and save
  // ---------------------------------------------------------------------------

  /** What the memory holds. It is gone after a loss of power. */
  datatype Ram = Ram(slot: int, seqNo: u32, cur: Config, valid: bool)

  const COLD := Ram(-1, 0, DEFAULTS, false)

  datatype Flash = Flash(a: Block, b: Block) {
    function Get(slot: int): Block {
      if slot == 0 then a else b
    }

    function Set(slot: int, block: Block): Flash {
      if slot == 0 then this.(a := block) else this.(b := block)
    }
  }

  datatype Picked = Picked(slot: int, record: Record)

  /** The newer of the readable records. */
  function Pick(f: Flash): Option<Picked> {
    var a, b := ReadSlot(f.a), ReadSlot(f.b);
    if a.Some? && (b.None? || b.value.seqNo <= a.value.seqNo) then Some(Picked(0, a.value))
    else if b.Some? then Some(Picked(1, b.value))
    else None
  }

  function Loaded(ram: Ram, f: Flash): Ram {
    match Pick(f)
    case None => ram
    case Some(p) => Ram(p.slot, p.record.seqNo, p.record.config, true)
  }

  /** How one operation of the flash ends, and what it leaves in the block. */
  datatype FlashOp = Done | Fails(left: Block) | PowerLost(left: Block)

  datatype SaveResult = Saved | EraseFailed | WriteFailed | Died

  datatype Machine = Machine(ram: Ram, flash: Flash)

  function Target(ram: Ram): int {
    if ram.slot == 0 then 1 else 0
  }

  function NewBlock(ram: Ram, config: Config): Block {
    RecordBlock((ram.seqNo + 1) % U32_SPAN, VERSION, config)
  }

  function SaveStep(m: Machine, config: Config, erase: FlashOp, write: FlashOp): (Machine, SaveResult) {
    if m.ram.valid && m.ram.cur == config then (m, Saved)
    else
      var slot, block := Target(m.ram), NewBlock(m.ram, config);
      match erase
      case Fails(left) => (m.(flash := m.flash.Set(slot, left)), EraseFailed)
      case PowerLost(left) => (m.(flash := m.flash.Set(slot, left)), Died)
      case Done =>
        match write
        case Fails(left) => (m.(flash := m.flash.Set(slot, left)), WriteFailed)
        case PowerLost(left) => (m.(flash := m.flash.Set(slot, left)), Died)
        case Done =>
          (Machine(Ram(slot, (m.ram.seqNo + 1) % U32_SPAN, config, true), m.flash.Set(slot, block)), Saved)
  }

  class ConfigStore {
    var flash: Flash
    var slot: int
    var seqNo: u32
    var cur: Config
    var valid: bool

    function Memory(): Ram
      reads this
    {
      Ram(slot, seqNo, cur, valid)
    }

    constructor (flash: Flash)
      ensures Memory() == COLD && this.flash == flash
    {
      this.flash := flash;
      slot, seqNo, cur, valid := -1, 0, DEFAULTS, false;
    }

    /** The newer record goes to the caller and to the memory. */
    method Load(given: Config) returns (config: Config, found: bool)
      modifies this`slot, this`seqNo, this`cur, this`valid
      ensures found == Pick(flash).Some?
      ensures config == if found then Pick(flash).value.record.config else given
      ensures Memory() == Loaded(old(Memory()), flash)
    {
      hide ReadSlot;
      config, found := given, false;
      var i := 0;
      ghost var a := ReadSlot(flash.a);
      while i < 2
        invariant 0 <= i <= 2 && unchanged(`flash) && unchanged(`cur) && unchanged(`valid)
        invariant i == 0 ==> !found
        invariant i == 1 ==> found == a.Some?
        invariant i == 1 && found ==> slot == 0 && a.value == Record(seqNo, config)
        invariant i == 2 ==> found == Pick(flash).Some?
        invariant i == 2 && found ==> Pick(flash).value == Picked(slot, Record(seqNo, config))
        invariant !found ==> config == given && slot == old(slot) && seqNo == old(seqNo)
      {
        var r := ReadSlot(flash.Get(i));
        if r.Some? {
          if !found || r.value.seqNo > seqNo {
            seqNo, slot, config, found := r.value.seqNo, i, r.value.config, true;
          }
        }
        i := i + 1;
      }
      if found {
        cur, valid := config, true;
      }
    }

    /** Write the settings to the record that is not in use. */
    method Save(config: Config, erase: FlashOp, write: FlashOp) returns (result: SaveResult)
      modifies this
      ensures (Machine(Memory(), flash), result)
           == SaveStep(Machine(old(Memory()), old(flash)), config, erase, write)
    {
      hide RecordBlock;
      if valid && cur == config {
        return Saved;
      }
      var target := if slot == 0 then 1 else 0;
      var block := RecordBlock((seqNo + 1) % U32_SPAN, VERSION, config);
      match erase {
        case Done => flash := flash.Set(target, ERASED);
        case Fails(left) =>
          flash := flash.Set(target, left);
          return EraseFailed;
        case PowerLost(left) =>
          flash := flash.Set(target, left);
          return Died;
      }
      match write {
        case Done => flash := flash.Set(target, block);
        case Fails(left) =>
          flash := flash.Set(target, left);
          return WriteFailed;
        case PowerLost(left) =>
          flash := flash.Set(target, left);
          return Died;
      }
      slot, seqNo, cur, valid := target, (seqNo + 1) % U32_SPAN, config, true;
      result := Saved;
    }
  }

  // ---------------------------------------------------------------------------
  // Runs with losses of power
  // ---------------------------------------------------------------------------

  datatype Event =
    | Save(config: Config, erase: FlashOp, write: FlashOp)
    | Reload
    | Reboot

  /** A board that lost its power loads the store before anything else. */
  function Booted(f: Flash): Machine {
    Machine(Loaded(COLD, f), f)
  }

  function Step(m: Machine, ev: Event): Machine {
    match ev
    case Save(config, erase, write) =>
      var (m', result) := SaveStep(m, config, erase, write);
      if result.Died? then Booted(m'.flash) else m'
    case Reload => m.(ram := Loaded(m.ram, m.flash))
    case Reboot => Booted(m.flash)
  }

  function Run(f: Flash, events: seq<Event>): Machine {
    if events == [] then Booted(f)
    else Step(Run(f, events[..|events| - 1]), events[|events| - 1])
  }

  /** What a load of the flash gives. */
  function Durable(f: Flash): Option<Config> {
    match Pick(f)
    case None => None
    case Some(p) => Some(p.record.config)
  }

  /** What an operation may leave in the record that is not in use: none, one with the
      stored settings, or one that the record in use goes before. */
  predicate LeavesStored(ram: Ram, left: Block) {
    match ReadSlot(left)
    case None => true
    case Some(r) =>
      ram.valid && (r.config == ram.cur || (if Target(ram) == 0 then r.seqNo < ram.seqNo else r.seqNo <= ram.seqNo))
  }

  predicate OpLeaves(ram: Ram, op: FlashOp) {
    op.Done? || LeavesStored(ram, op.left)
  }

  /** A write that loses its power can also leave a record of the new settings. */
  predicate WriteLeaves(ram: Ram, config: Config, op: FlashOp) {
    OpLeaves(ram, op) || (op.PowerLost? && ReadSlot(op.left).Some? && ReadSlot(op.left).value.config == config)
  }

  predicate Allowed(m: Machine, ev: Event) {
    ev.Save? ==>
      && m.ram.seqNo < MAX_SEQ
      && OpLeaves(m.ram, ev.erase)
      && WriteLeaves(m.ram, ev.config, ev.write)
  }

  predicate Legal(f: Flash, events: seq<Event>) {
    events != [] ==>
      && Legal(f, events[..|events| - 1])
      && Allowed(Run(f, events[..|events| - 1]), events[|events| - 1])
  }

  /** The memory holds a record that is in the flash, and a load gives its settings. */
  predicate Mirrors(m: Machine) {
    if Pick(m.flash).None? then m.ram == COLD
    else
      && m.ram.valid && 0 <= m.ram.slot <= 1
      && ReadSlot(m.flash.Get(m.ram.slot)) == Some(Record(m.ram.seqNo, m.ram.cur))
      && Pick(m.flash).value.record.config == m.ram.cur
  }

  lemma NewRecordReads(ram: Ram, config: Config)
    ensures ReadSlot(NewBlock(ram, config)) == Some(Record((ram.seqNo + 1) % U32_SPAN, config))
  {
    hide ReadSlot, RecordBlock;
    AnyVersionReadsBack((ram.seqNo + 1) % U32_SPAN, VERSION, config);
    assert Overlay(config) == config;
  }

  /** Each step acts on one durable value: a completed save sets it, a failed one keeps
      it, and one cut short by a loss of power does one or the other. */
  lemma StepIsAtomic(m: Machine, ev: Event)
    requires Mirrors(m) && Allowed(m, ev)
    ensures var m' := Step(m, ev);
            && Mirrors(m')
            && (ev.Save? ==>
                  var result := SaveStep(m, ev.config, ev.erase, ev.write).1;
                  match result
                  case Saved => Durable(m'.flash) == Some(ev.config)
                  case Died => Durable(m'.flash) in {Durable(m.flash), Some(ev.config)}
                  case _ => Durable(m'.flash) == Durable(m.flash))
            && (!ev.Save? ==> Durable(m'.flash) == Durable(m.flash) && m'.flash == m.flash)
  {
    hide ReadSlot, RecordBlock;
    if ev.Save? {
      NewRecordReads(m.ram, ev.config);
    }
  }

  /** The values that a load may give after the events: the last completed save, or a
      save after it that a loss of power cut short. */
  function Candidates(f: Flash, events: seq<Event>): set<Option<Config>> {
    if events == [] then {Durable(f)}
    else
      var before, ev := events[..|events| - 1], events[|events| - 1];
      if !ev.Save? then Candidates(f, before)
      else
        match SaveStep(Run(f, before), ev.config, ev.erase, ev.write).1
        case Saved => {Some(ev.config)}
        case Died => Candidates(f, before) + {Some(ev.config)}
        case _ => Candidates(f, before)
  }

  /** Over every run, a load gives the last completed save or one cut short since, and
      the cached value is the newest record. */
  lemma {:induction false} LoadGivesTheLastSave(f: Flash, events: seq<Event>)
    requires Legal(f, events)
    ensures var m := Run(f, events);
            && Mirrors(m)
            && Durable(m.flash) in Candidates(f, events)
            && (m.ram.valid ==> Durable(m.flash) == Some(m.ram.cur))
    decreases events
  {
    hide ReadSlot, RecordBlock, Step, Allowed;
    if events != [] {
      var before, ev := events[..|events| - 1], events[|events| - 1];
      LoadGivesTheLastSave(f, before);
      StepIsAtomic(Run(f, before), ev);
    }
  }

  // ---------------------------------------------------------------------------
  // Where the conditions are needed
  // ---------------------------------------------------------------------------

  /** A completed save of new values takes effect exactly below the largest sequence. */
  lemma SaveTakesEffectExactlyWhen(m: Machine, config: Config)
    requires Mirrors(m) && m.ram.valid && config != m.ram.cur
    ensures Durable(SaveStep(m, config, Done, Done).0.flash) == Some(config) <==> m.ram.seqNo != MAX_SEQ
  {
    hide ReadSlot, RecordBlock;
    NewRecordReads(m.ram, config);
  }

  /** A failed operation keeps what a load gives exactly when what it left in the block is
      no record, or has the stored settings, or goes behind the record in use. */
  lemma FailureKeepsExactlyWhen(m: Machine, config: Config, left: Block)
    requires Mirrors(m) && !(m.ram.valid && m.ram.cur == config)
    ensures var erased := SaveStep(m, config, Fails(left), Done).0;
            var written := SaveStep(m, config, Done, Fails(left)).0;
            && erased == written && erased.ram == m.ram
            && (Durable(written.flash) == Durable(m.flash) <==> LeavesStored(m.ram, left))
  {
    hide ReadSlot, RecordBlock;
  }

  /** Thus a write that reports a failure but left its whole record is taken by the next
      load, and saving the old values again does not undo it. */
  lemma FailedWriteMayResurface(m: Machine, config: Config)
    requires Mirrors(m) && m.ram.valid && config != m.ram.cur && m.ram.seqNo < MAX_SEQ
    ensures !LeavesStored(m.ram, NewBlock(m.ram, config))
    ensures var (m1, r1) := SaveStep(m, config, Done, Fails(NewBlock(m.ram, config)));
            var (m2, r2) := SaveStep(m1, m.ram.cur, Done, Done);
            r1 == WriteFailed && r2 == Saved && Durable(m2.flash) == Some(config)
  {
    hide ReadSlot, RecordBlock;
    NewRecordReads(m.ram, config);
  }

  /** A loss of power between the erase and the write is one of the losses above: the block
      is erased, no record, and the store keeps its value. */
  lemma LostBetweenEraseAndWrite(m: Machine, config: Config)
    requires Mirrors(m) && m.ram.seqNo < MAX_SEQ && !(m.ram.valid && m.ram.cur == config)
    ensures var ev := Save(config, Done, PowerLost(ERASED));
            && Allowed(m, ev) && SaveStep(m, config, Done, PowerLost(ERASED)).1 == Died
            && Durable(Step(m, ev).flash) == Durable(m.flash) && Mirrors(Step(m, ev))
  {
    hide ReadSlot, RecordBlock;
    ErasedIsUnreadable();
    StepIsAtomic(m, Save(config, Done, PowerLost(ERASED)));
  }
}
