/** The in-memory message index: a map per chat, behaving like one flat map from (chat, id) to send time. */
module Index {
  import Telegram

  type Index = map<int, map<int, int>>
  type FlatIndex = map<(int, int), int>

  // ---------------------------------------------------------------- the two-level operations

  function Messages(ix: Index, chat: int): map<int, int> {
    if chat in ix then ix[chat] else map[]
  }

  function Put(ix: Index, chat: int, id: int, sent: int): Index {
    ix[chat := Messages(ix, chat)[id := sent]]
  }

  /** Removal drops the chat's map when nothing is left in it. */
  function RemoveIds(ix: Index, chat: int, ids: set<int>): Index {
    if chat !in ix then ix
    else
      var m := ix[chat] - ids;
      if m == map[] then ix - {chat} else ix[chat := m]
  }

  /** A removal in the common message box touches every chat that is not a channel. */
  function RemoveCommon(ix: Index, ids: set<int>): Index {
    map chat | chat in ix && (Telegram.MarksChannel(chat) || ix[chat] - ids != map[])
      :: if Telegram.MarksChannel(chat) then ix[chat] else ix[chat] - ids
  }

  datatype Op =
    | Indexed(chat: int, id: int, sent: int)
    | Deleted(chat: int, ids: set<int>)
    | Disabled(chat: int)
    | Reset

  /** Deleted with chat zero stands for the common message box. */
  function Step(ix: Index, op: Op): Index {
    match op
    case Indexed(chat, id, sent) => Put(ix, chat, id, sent)
    case Deleted(chat, ids) => if chat != 0 then RemoveIds(ix, chat, ids) else RemoveCommon(ix, ids)
    case Disabled(chat) => ix - {chat}
    case Reset => map[]
  }

  function Run(ix: Index, ops: seq<Op>): Index
    decreases |ops|
  {
    if ops == [] then ix else Step(Run(ix, ops[..|ops| - 1]), ops[|ops| - 1])
  }

  // ---------------------------------------------------------------- the flat reference

  function Flat(ix: Index): FlatIndex {
    map chat, id | chat in ix && id in ix[chat] :: (chat, id) := ix[chat][id]
  }

  /** Whether a delete update for the given box reaches a chat. */
  predicate Reaches(box: int, chat: int) {
    if box != 0 then chat == box else !Telegram.MarksChannel(chat)
  }

  function FlatStep(f: FlatIndex, op: Op): FlatIndex {
    match op
    case Indexed(chat, id, sent) => f[(chat, id) := sent]
    case Deleted(box, ids) => map p | p in f && !(Reaches(box, p.0) && p.1 in ids) :: f[p]
    case Disabled(chat) => map p | p in f && p.0 != chat :: f[p]
    case Reset => map[]
  }

  function FlatRun(f: FlatIndex, ops: seq<Op>): FlatIndex
    decreases |ops|
  {
    if ops == [] then f else FlatStep(FlatRun(f, ops[..|ops| - 1]), ops[|ops| - 1])
  }

  ghost predicate NoEmptyChat(ix: Index) {
    forall chat :: chat in ix ==> ix[chat] != map[]
  }

  lemma StepKeepsNoEmpty(ix: Index, op: Op)
    requires NoEmptyChat(ix)
    ensures NoEmptyChat(Step(ix, op))
  {
    match op {
      case Indexed(chat, id, sent) => assert id in Step(ix, op)[chat];
      case _ =>
    }
  }

  lemma FlatLookup(ix: Index, c: int, i: int)
    ensures (c, i) in Flat(ix) <==> i in Messages(ix, c)
    ensures (c, i) in Flat(ix) ==> Flat(ix)[(c, i)] == Messages(ix, c)[i]
  {}

  /** The chat's own map after a removal, the dropped empty map included. */
  lemma DeletedMessages(ix: Index, box: int, ids: set<int>, c: int)
    ensures Messages(Step(ix, Deleted(box, ids)), c)
         == if Reaches(box, c) then Messages(ix, c) - ids else Messages(ix, c)
  {}

  lemma IndexedLookup(ix: Index, op: Op, c: int, i: int)
    requires op.Indexed?
    ensures (c, i) in Flat(Step(ix, op)) <==> (c, i) in FlatStep(Flat(ix), op)
    ensures (c, i) in Flat(Step(ix, op)) ==> Flat(Step(ix, op))[(c, i)] == FlatStep(Flat(ix), op)[(c, i)]
  {
    FlatLookup(ix, c, i);
    FlatLookup(Step(ix, op), c, i);
  }

  lemma RemovalLookup(ix: Index, op: Op, c: int, i: int)
    requires !op.Indexed?
    ensures (c, i) in Flat(Step(ix, op)) <==> (c, i) in FlatStep(Flat(ix), op)
    ensures (c, i) in Flat(Step(ix, op)) ==> Flat(Step(ix, op))[(c, i)] == FlatStep(Flat(ix), op)[(c, i)]
  {
    FlatLookup(ix, c, i);
    FlatLookup(Step(ix, op), c, i);
    if op.Deleted? {
      DeletedMessages(ix, op.chat, op.ids, c);
    }
  }

  /** Each operation on the two-level map is the obvious one on the flat map, and leaves no empty chat. */
  lemma StepRefines(ix: Index, op: Op)
    requires NoEmptyChat(ix)
    ensures NoEmptyChat(Step(ix, op))
    ensures Flat(Step(ix, op)) == FlatStep(Flat(ix), op)
  {
    StepKeepsNoEmpty(ix, op);
    forall p: (int, int)
      ensures p in Flat(Step(ix, op)) <==> p in FlatStep(Flat(ix), op)
      ensures p in Flat(Step(ix, op)) ==> Flat(Step(ix, op))[p] == FlatStep(Flat(ix), op)[p]
    {
      if op.Indexed? {
        IndexedLookup(ix, op, p.0, p.1);
      } else {
        RemovalLookup(ix, op, p.0, p.1);
      }
    }
  }

  /** Main result on the index: any run of operations refines the same run on the flat map. */
  lemma {:induction false} RunRefines(ix: Index, ops: seq<Op>)
    requires NoEmptyChat(ix)
    ensures NoEmptyChat(Run(ix, ops))
    ensures Flat(Run(ix, ops)) == FlatRun(Flat(ix), ops)
    decreases |ops|
  {
    if ops != [] {
      RunRefines(ix, ops[..|ops| - 1]);
      StepRefines(Run(ix, ops[..|ops| - 1]), ops[|ops| - 1]);
    }
  }

  /**
   * A delete update without a chat id reaches every basic group whose raw id is at most the shift, and no
   * supergroup: the basic group loses the ids, the supergroup keeps its whole map.
   */
  lemma CommonBoxReaches(ix: Index, ids: set<int>, basic: int, channel: int)
    requires 1 <= basic <= Telegram.CHANNEL_SHIFT
    requires 1 <= channel && Telegram.CHANNEL_SHIFT + channel <= 0x8000_0000_0000_0000
    ensures var after := Step(ix, Deleted(0, ids));
            && Messages(after, Telegram.MarkChat(basic)) == Messages(ix, Telegram.MarkChat(basic)) - ids
            && Messages(after, Telegram.MarkChannel(channel)) == Messages(ix, Telegram.MarkChannel(channel))
  {
    var b := Telegram.MarkChat(basic);
    Telegram.ChatMarkRecognised(basic);
    Telegram.ChannelMarkRecognised(channel);
    DeletedMessages(ix, 0, ids, b);
  }

  /** Past the shift a basic group is taken for a channel and the update misses it. */
  lemma CommonBoxMissesHugeChat(ix: Index, ids: set<int>, basic: int)
    requires Telegram.CHANNEL_SHIFT < basic <= 0x7FFF_FFFF_FFFF_FFFF
    ensures Messages(Step(ix, Deleted(0, ids)), Telegram.MarkChat(basic)) == Messages(ix, Telegram.MarkChat(basic))
  {
    Telegram.ChatMarkRecognised(basic);
  }

  // ---------------------------------------------------------------- folding over a scan

  /** The index after the scan callback has run on each message in order. */
  function PutAll(ix: Index, chat: int, seen: seq<Telegram.Msg>): Index
    decreases |seen|
  {
    if seen == [] then ix
    else
      var m := seen[|seen| - 1];
      Put(PutAll(ix, chat, seen[..|seen| - 1]), chat, m.id, m.sent)
  }

  lemma {:induction false} PutAllElsewhere(ix: Index, chat: int, seen: seq<Telegram.Msg>, c: int)
    requires c != chat
    ensures Messages(PutAll(ix, chat, seen), c) == Messages(ix, c)
    decreases |seen|
  {
    if seen != [] {
      PutAllElsewhere(ix, chat, seen[..|seen| - 1], c);
    }
  }

  /** A scan records each message it saw under its send time. */
  lemma {:induction false} PutAllRecords(ix: Index, chat: int, seen: seq<Telegram.Msg>, m: Telegram.Msg)
    requires Telegram.Descending(seen) && m in seen
    ensures m.id in Messages(PutAll(ix, chat, seen), chat)
    ensures Messages(PutAll(ix, chat, seen), chat)[m.id] == m.sent
    decreases |seen|
  {
    var k := |seen| - 1;
    if m != seen[k] {
      var i :| 0 <= i < |seen| && seen[i] == m;
      assert seen[..k][i] == m && m.id > seen[k].id;
      Telegram.DescendingSlice(seen, 0, k);
      PutAllRecords(ix, chat, seen[..k], m);
    }
  }

  /** What a scan leaves in the chat's map is an entry from before or a message it saw. */
  lemma {:induction false} PutAllSource(ix: Index, chat: int, seen: seq<Telegram.Msg>, id: int)
    requires id in Messages(PutAll(ix, chat, seen), chat)
    ensures var sent := Messages(PutAll(ix, chat, seen), chat)[id];
            || (id in Messages(ix, chat) && sent == Messages(ix, chat)[id])
            || (exists m :: m in seen && m.id == id && m.sent == sent)
    decreases |seen|
  {
    if seen != [] {
      var k := |seen| - 1;
      assert seen[k] in seen;
      if id != seen[k].id {
        PutAllSource(ix, chat, seen[..k], id);
      }
    }
  }

  lemma {:induction false} PutAllKeeps(ix: Index, chat: int, seen: seq<Telegram.Msg>, id: int)
    requires id in Messages(ix, chat)
    ensures id in Messages(PutAll(ix, chat, seen), chat)
    decreases |seen|
  {
    if seen != [] {
      PutAllKeeps(ix, chat, seen[..|seen| - 1], id);
    }
  }

  /** The entries of the chat are those from before and the messages seen, and no other chat changes. */
  ghost predicate Adds(ix: Index, after: Index, chat: int, seen: seq<Telegram.Msg>) {
    && (forall c :: c != chat ==> Messages(after, c) == Messages(ix, c))
    && (forall id :: id in Messages(after, chat) <==> id in Messages(ix, chat) || exists m :: m in seen && m.id == id)
    && (forall m :: m in seen ==> m.id in Messages(after, chat) && Messages(after, chat)[m.id] == m.sent)
    && (forall id :: id in Messages(ix, chat) && (forall m :: m in seen ==> m.id != id) ==>
                       id in Messages(after, chat) && Messages(after, chat)[id] == Messages(ix, chat)[id])
  }

  /** Main result on the scan callback: a scan adds exactly the messages it saw, under their send times. */
  lemma ScanAdds(ix: Index, chat: int, seen: seq<Telegram.Msg>)
    requires Telegram.Descending(seen)
    ensures Adds(ix, PutAll(ix, chat, seen), chat, seen)
  {
    var after := PutAll(ix, chat, seen);
    forall c | c != chat ensures Messages(after, c) == Messages(ix, c) {
      PutAllElsewhere(ix, chat, seen, c);
    }
    forall m | m in seen ensures m.id in Messages(after, chat) && Messages(after, chat)[m.id] == m.sent {
      PutAllRecords(ix, chat, seen, m);
    }
    forall id | id in Messages(ix, chat) ensures id in Messages(after, chat) {
      PutAllKeeps(ix, chat, seen, id);
    }
    forall id | id in Messages(after, chat)
      ensures (exists m :: m in seen && m.id == id) ||
              (id in Messages(ix, chat) && Messages(after, chat)[id] == Messages(ix, chat)[id])
    {
      PutAllSource(ix, chat, seen, id);
    }
  }
}
