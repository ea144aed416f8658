/**
 The error-injecting channel of libcpe464: the message events and
 PacketManager, which runs them on a copy of each packet it sends. Random
 numbers (drand48) are resolved into a Choice that the caller supplies.
 */
module PacketManager {
  import opened Bytes
  import opened Checksum
  import opened Pdu

  /** What an event is configured to do, as a value. */
  datatype Effect = Record | DropWhen(all: bool, msgNos: seq<nat>) | FlipByte

  /** An event's return code: 0 unchanged, 1 changed, 2 dropped; and the buffer it leaves. */
  datatype Outcome = Outcome(code: nat, buf: seq<byte>)

  predicate Drops(e: Effect, msgNo: nat) {
    e.DropWhen? && (e.all || msgNo in e.msgNos)
  }

  function Complement(b: seq<byte>, i: nat): seq<byte>
    requires i < |b|
  {
    b[i := 255 - b[i]]
  }

  /** One run() of an event; draw is the byte position errorFlipBits would pick. */
  function RunOne(e: Effect, buf: seq<byte>, msgNo: nat, draw: nat): (r: Outcome)
    requires draw < |buf|
    ensures |r.buf| == |buf| && r.code <= 2
  {
    match e
    case Record => Outcome(0, buf)
    case DropWhen(_, _) => Outcome(if Drops(e, msgNo) then 2 else 0, buf)
    case FlipByte => Outcome(1, Complement(buf, draw))
  }

  /** runMsgEvents from event i on: run in order, stop at the first drop. */
  function RunAll(es: seq<Effect>, i: nat, buf: seq<byte>, msgNo: nat, draws: seq<nat>, changed: bool): (r: Outcome)
    requires i <= |es| == |draws| && forall k | 0 <= k < |draws| :: draws[k] < |buf|
    ensures |r.buf| == |buf| && r.code <= 2
    decreases |es| - i
  {
    if i == |es| then Outcome(if changed then 1 else 0, buf)
    else
      var one := RunOne(es[i], buf, msgNo, draws[i]);
      if one.code == 2 then one
      else RunAll(es, i + 1, one.buf, msgNo, draws, changed || one.code == 1)
  }

  /** The random numbers of one send: a byte position per standard event, and the random event's draw. */
  datatype Choice = Choice(draws: seq<nat>, fire: bool, pick: nat, pickDraw: nat)

  predicate ChoiceFits(c: Choice, standard: seq<Effect>, chance: seq<Effect>, size: nat) {
    && |c.draws| == |standard| && (forall k | 0 <= k < |c.draws| :: c.draws[k] < size)
    && (chance != [] ==> c.pick < |chance|)
    && c.pickDraw < size
  }

  /** processEvents: the standard events, then at most one random event, run even after a drop. */
  function Process(standard: seq<Effect>, chance: seq<Effect>, buf: seq<byte>, msgNo: nat, c: Choice): (r: Outcome)
    requires ChoiceFits(c, standard, chance, |buf|)
    ensures |r.buf| == |buf| && r.code <= 2
  {
    var first := RunAll(standard, 0, buf, msgNo, c.draws, false);
    if chance == [] || !c.fire then first
    else
      var second := RunOne(chance[c.pick], first.buf, msgNo, c.pickDraw);
      Outcome(if first.code == 2 then 2 else second.code, second.buf)
  }

  /** What sendto puts on the wire, if anything. */
  function Transmitted(standard: seq<Effect>, chance: seq<Effect>, buf: seq<byte>, msgNo: nat, c: Choice): Option<seq<byte>>
    requires ChoiceFits(c, standard, chance, |buf|)
  {
    var p := Process(standard, chance, buf, msgNo, c);
    if p.code == 2 then None else Some(p.buf)
  }

  /** errorDrop: constructed to drop everything; a list switches drop-all off. */
  class ErrorDrop {
    var dropAll: bool
    var dropList: seq<nat>

    constructor ()
      ensures Config() == DropWhen(true, [])
    {
      dropAll, dropList := true, [];
    }

    function Config(): Effect
      reads this
    {
      DropWhen(dropAll, dropList)
    }

    method SetDropAll(all: bool) returns (result: int)
      modifies this
      ensures result == 0 && Config() == DropWhen(all, old(dropList))
    {
      dropAll := all;
      return 0;
    }

    method SetDropSpecific(msgNos: seq<nat>) returns (result: int)
      modifies this
      ensures result == 0 && Config() == DropWhen(false, msgNos)
    {
      dropAll := false;
      dropList := msgNos;
      return 0;
    }

    method Run(buf: array?<byte>, msgNo: nat) returns (result: int)
      ensures result == if buf == null then -1 else if dropAll || msgNo in dropList then 2 else 0
    {
      if buf == null { return -1; }
      var toDrop := dropAll;
      var it := 0;
      while it != |dropList|
        invariant 0 <= it <= |dropList|
        invariant msgNo !in dropList[..it] && toDrop == dropAll
      {
        if dropList[it] == msgNo {
          toDrop := true;
          break;
        }
        it := it + 1;
      }
      return if toDrop then 2 else 0;
    }
  }

  /** errorFlipBits::run complements the drawn byte of the caller's buffer in place. */
  method FlipBits(buf: array?<byte>, draw: nat) returns (result: int)
    requires buf != null ==> draw < buf.Length
    modifies buf
    ensures buf == null ==> result == -1
    ensures buf != null ==> result == 1 && buf[..] == Complement(old(buf[..]), draw)
    ensures buf != null ==> buf[draw] == 255 - old(buf[draw])
  {
    if buf == null { return -1; }
    buf[draw] := 255 - buf[draw];
    return 1;
  }

  datatype MsgEvent = InfoSeqNo | Drop(event: ErrorDrop) | Flip

  function EffectOf(e: MsgEvent): Effect
    reads if e.Drop? then {e.event} else {}
  {
    match e
    case InfoSeqNo => Record
    case Drop(d) => d.Config()
    case Flip => FlipByte
  }

  ghost function Objects(es: seq<MsgEvent>): set<object> {
    set e | e in es && e.Drop? :: e.event
  }

  ghost function Effects(es: seq<MsgEvent>): (r: seq<Effect>)
    reads Objects(es)
    ensures |r| == |es|
  {
    seq(|es|, i requires 0 <= i < |es| reads Objects(es) => EffectOf(es[i]))
  }

  class PacketManager {
    var msgNo: nat
    var standard: seq<MsgEvent>
    var chance: seq<MsgEvent>

    constructor ()
      ensures msgNo == 0 && standard == [] && chance == []
    {
      msgNo, standard, chance := 0, [], [];
    }

    /** None is the null pointer. */
    method AddMsgEventStandard(e: Option<MsgEvent>) returns (result: int)
      modifies this
      ensures e.None? ==> result == -1 && standard == old(standard)
      ensures e.Some? ==> result == 0 && standard == old(standard) + [e.value]
      ensures chance == old(chance) && msgNo == old(msgNo)
    {
      if e.None? { return -1; }
      standard := standard + [e.value];
      return 0;
    }

    method AddMsgEventRandom(e: Option<MsgEvent>) returns (result: int)
      modifies this
      ensures e.None? ==> result == -1 && chance == old(chance)
      ensures e.Some? ==> result == 0 && chance == old(chance) + [e.value]
      ensures standard == old(standard) && msgNo == old(msgNo)
    {
      if e.None? { return -1; }
      chance := chance + [e.value];
      return 0;
    }

    method RunEvent(e: MsgEvent, buf: array<byte>, no: nat, draw: nat) returns (code: int)
      requires draw < buf.Length
      modifies buf
      ensures var one := RunOne(old(EffectOf(e)), old(buf[..]), no, draw);
              code == one.code && buf[..] == one.buf
    {
      match e
      case InfoSeqNo => code := 0;
      case Drop(d) => code := d.Run(buf, no);
      case Flip => code := FlipBits(buf, draw);
    }

    method RunMsgEvents(es: seq<MsgEvent>, buf: array<byte>, no: nat, draws: seq<nat>) returns (result: int)
      requires |draws| == |es| && forall k | 0 <= k < |draws| :: draws[k] < buf.Length
      modifies buf
      ensures var all := RunAll(old(Effects(es)), 0, old(buf[..]), no, draws, false);
              result == all.code && buf[..] == all.buf
    {
      ghost var effects := Effects(es);
      var hasChanged := false;
      for i := 0 to |es|
        invariant Effects(es) == effects
        invariant RunAll(effects, i, buf[..], no, draws, hasChanged)
               == RunAll(effects, 0, old(buf[..]), no, draws, false)
      {
        assert effects[i] == EffectOf(es[i]);
        var nResult := RunEvent(es[i], buf, no, draws[i]);
        if nResult < 0 {
          return -1;
        } else if nResult == 1 {
          hasChanged := true;
        } else if nResult == 2 {
          return 2;
        }
      }
      return if hasChanged then 1 else 0;
    }

    method ProcessEvents(buf: array<byte>, no: nat, c: Choice) returns (result: int)
      requires ChoiceFits(c, Effects(standard), Effects(chance), buf.Length)
      modifies buf
      ensures var p := Process(old(Effects(standard)), old(Effects(chance)), old(buf[..]), no, c);
              result == p.code && buf[..] == p.buf
    {
      ghost var random := Effects(chance);
      var hasChanged, hasDropped := 0, false;
      var nResult := RunMsgEvents(standard, buf, no, c.draws);
      if nResult < 0 {
        return nResult;
      } else if nResult == 2 {
        hasDropped := true;
      } else if nResult == 1 {
        hasChanged := 1;
      }
      if |chance| > 0 && c.fire {
        assert random[c.pick] == EffectOf(chance[c.pick]);
        nResult := RunEvent(chance[c.pick], buf, no, c.pickDraw);
        if nResult < 0 {
          return nResult;
        } else if nResult == 2 {
          hasDropped := true;
        } else {
          hasChanged := nResult;
        }
      }
      return if hasDropped then 2 else hasChanged;
    }

    /** sendto_Err of a non-empty buffer: the caller's bytes are left alone and a dropped packet is reported as sent. */
    method SendtoErr(buf: seq<byte>, c: Choice) returns (result: int, wire: Option<seq<byte>>)
      requires buf != []
      requires ChoiceFits(c, Effects(standard), Effects(chance), |buf|)
      modifies this
      ensures msgNo == (old(msgNo) + 1) % TWO_32
      ensures standard == old(standard) && chance == old(chance)
      ensures result == |buf|
      ensures wire == Transmitted(old(Effects(standard)), old(Effects(chance)), buf, msgNo, c)
    {
      msgNo := (msgNo + 1) % TWO_32;
      var bufTmp := new byte[|buf|];
      forall i | 0 <= i < |buf| { bufTmp[i] := buf[i]; }
      assert bufTmp[..] == buf;
      assert Effects(standard) == old(Effects(standard)) && Effects(chance) == old(Effects(chance));
      var nResult := ProcessEvents(bufTmp, msgNo, c);
      if nResult < 0 {
        return nResult, None;
      } else if nResult == 0 || nResult == 1 {
        return |buf|, Some(bufTmp[..]);
      } else {
        return |buf|, None;
      }
    }
  }

  /** The standard events of this program: statistics and drop lists, never a flip. */
  predicate NoFlips(es: seq<Effect>) {
    forall e | e in es :: !e.FlipByte?
  }

  lemma {:induction false} StandardEventsKeepTheBytes(es: seq<Effect>, i: nat, buf: seq<byte>, msgNo: nat, draws: seq<nat>)
    requires i <= |es| == |draws| && (forall k | 0 <= k < |draws| :: draws[k] < |buf|) && NoFlips(es)
    ensures RunAll(es, i, buf, msgNo, draws, false).buf == buf
    ensures RunAll(es, i, buf, msgNo, draws, false).code
         == if exists k | i <= k < |es| :: Drops(es[k], msgNo) then 2 else 0
    decreases |es| - i
  {
    if i < |es| {
      assert es[i] in es;
      StandardEventsKeepTheBytes(es, i + 1, buf, msgNo, draws);
    }
  }

  /** A send is lost exactly when an errorDrop event that ran was set for it. */
  lemma LostIff(standard: seq<Effect>, chance: seq<Effect>, buf: seq<byte>, msgNo: nat, c: Choice)
    requires ChoiceFits(c, standard, chance, |buf|) && NoFlips(standard)
    ensures Transmitted(standard, chance, buf, msgNo, c) == None
            <==> ((exists e | e in standard :: e.DropWhen? && (e.all || msgNo in e.msgNos))
                  || (chance != [] && c.fire
                      && var e := chance[c.pick]; e.DropWhen? && (e.all || msgNo in e.msgNos)))
  {
    StandardEventsKeepTheBytes(standard, 0, buf, msgNo, c.draws);
    if e :| e in standard && e.DropWhen? && (e.all || msgNo in e.msgNos) {
      var k :| 0 <= k < |standard| && standard[k] == e;
      assert Drops(standard[k], msgNo);
    }
  }

  /**
   What a send that is not lost puts on the wire: the packet with the drawn
   byte complemented and every other byte kept if a flip was the random event
   that ran, and the packet itself otherwise.
   */
  lemma WireExactly(standard: seq<Effect>, chance: seq<Effect>, buf: seq<byte>, msgNo: nat, c: Choice)
    requires ChoiceFits(c, standard, chance, |buf|) && NoFlips(standard)
    requires Transmitted(standard, chance, buf, msgNo, c).Some?
    ensures var wire := Transmitted(standard, chance, buf, msgNo, c).value;
            if chance != [] && c.fire && chance[c.pick].FlipByte?
            then |wire| == |buf| && forall i | 0 <= i < |buf| ::
                   wire[i] == if i == c.pickDraw then 255 - buf[i] else buf[i]
            else wire == buf
  {
    StandardEventsKeepTheBytes(standard, 0, buf, msgNo, c.draws);
  }

  /** A flip that ran is always noticed: what it leaves of a packet that verifies does not verify. */
  lemma FlipIsRejected(standard: seq<Effect>, chance: seq<Effect>, buf: seq<byte>, msgNo: nat, c: Choice,
                       order: ByteOrder)
    requires ChoiceFits(c, standard, chance, |buf|) && NoFlips(standard) && Verifies(order, buf)
    requires chance != [] && c.fire && chance[c.pick].FlipByte?
    ensures var t := Transmitted(standard, chance, buf, msgNo, c);
            t.Some? ==> !Verifies(order, t.value)
  {
    var t := Transmitted(standard, chance, buf, msgNo, c);
    if t.Some? {
      WireExactly(standard, chance, buf, msgNo, c);
      ByteChangeDetected(order, buf, c.pickDraw, 255 - buf[c.pickDraw]);
      assert t.value == buf[c.pickDraw := 255 - buf[c.pickDraw]];
    }
  }

  /** Channel soundness: what reaches the wire is the packet, or the packet with one byte complemented. */
  lemma ChannelAltersAtMostOneByte(standard: seq<Effect>, chance: seq<Effect>, buf: seq<byte>, msgNo: nat, c: Choice)
    requires ChoiceFits(c, standard, chance, |buf|) && NoFlips(standard)
    ensures var t := Transmitted(standard, chance, buf, msgNo, c);
            t == None || t == Some(buf) || exists i | 0 <= i < |buf| :: t == Some(Complement(buf, i))
  {
    StandardEventsKeepTheBytes(standard, 0, buf, msgNo, c.draws);
  }

  /** A packet of sendPdu that gets through the receive-side in_cksum test is the packet that was sent. */
  lemma AcceptedMeansUnaltered(standard: seq<Effect>, chance: seq<Effect>, buf: seq<byte>, msgNo: nat, c: Choice,
                               order: ByteOrder)
    requires ChoiceFits(c, standard, chance, |buf|) && NoFlips(standard)
    requires Verifies(order, buf)
    ensures var t := Transmitted(standard, chance, buf, msgNo, c);
            t.Some? && Verifies(order, t.value) ==> t.value == buf
  {
    ChannelAltersAtMostOneByte(standard, chance, buf, msgNo, c);
    var t := Transmitted(standard, chance, buf, msgNo, c);
    if t.Some? && t.value != buf {
      var i :| 0 <= i < |buf| && t == Some(Complement(buf, i));
      ByteChangeDetected(order, buf, i, 255 - buf[i]);
    }
  }
}
