/** How the Caterina bootloader cuts its replies into USB packets. */
module Replies {
  import opened Bytes

  // Replies, in packets of a 16-byte endpoint bank.

  const BANK: nat := 16

  datatype Reply = Reply(packets: seq<seq<byte>>, bank: seq<byte>)

  /** `WriteNextResponseByte` */
  function Respond(r: Reply, b: byte): Reply {
    if |r.bank| == BANK then Reply(r.packets + [r.bank], [b]) else r.(bank := r.bank + [b])
  }

  /** The end of a command: the bank is sent, and an empty packet after a full one. */
  function Finish(r: Reply): Reply {
    Reply(r.packets + [r.bank] + if |r.bank| == BANK then [[]] else [], [])
  }

  function RespondAll(r: Reply, bytes: seq<byte>): Reply {
    if bytes == [] then r
    else Respond(RespondAll(r, bytes[..|bytes| - 1]), bytes[|bytes| - 1])
  }

  lemma RespondNone(r: Reply)
    ensures RespondAll(r, []) == r
  {
  }

  /** The byte after a stretch of a memory joins the stretch. */
  lemma RespondNext(r: Reply, mem: seq<byte>, i: nat, j: nat)
    requires i <= j < |mem|
    ensures RespondAll(r, mem[i..j + 1]) == Respond(RespondAll(r, mem[i..j]), mem[j])
  {
    hide Respond;
    assert mem[i..j + 1][..j - i] == mem[i..j];
  }

  const EMPTY := Reply([], [])

  /** What the host takes as the reply: everything up to the first short packet. */
  function HostReads(packets: seq<seq<byte>>): seq<byte> {
    if packets == [] then []
    else if |packets[0]| < BANK then packets[0]
    else packets[0] + HostReads(packets[1..])
  }

  ghost predicate AllFull(packets: seq<seq<byte>>) {
    forall i :: 0 <= i < |packets| ==> |packets[i]| == BANK
  }

  lemma FlatAppend(packets: seq<seq<byte>>, last: seq<byte>)
    ensures Flat(packets + [last]) == Flat(packets) + last
  {
    assert (packets + [last])[..|packets|] == packets;
  }

  /** What has been written so far: full packets sent, and the rest in the bank. */
  ghost predicate Holds(r: Reply, bytes: seq<byte>) {
    && AllFull(r.packets) && |r.bank| <= BANK && Flat(r.packets) + r.bank == bytes
    && (r.bank == [] ==> r.packets == [])
  }

  lemma HoldsNothing()
    ensures Holds(EMPTY, [])
  {
  }

  lemma RespondKeeps(r: Reply, bytes: seq<byte>, b: byte)
    requires Holds(r, bytes)
    ensures Holds(Respond(r, b), bytes + [b])
  {
    hide Flat;
    FlatAppend(r.packets, r.bank);
  }

  lemma {:induction false} RespondAllExact(bytes: seq<byte>)
    ensures Holds(RespondAll(EMPTY, bytes), bytes)
  {
    hide Holds, Respond;
    if bytes == [] {
      HoldsNothing();
    } else {
      var n := |bytes| - 1;
      RespondAllExact(bytes[..n]);
      RespondKeeps(RespondAll(EMPTY, bytes[..n]), bytes[..n], bytes[n]);
      assert bytes[..n] + [bytes[n]] == bytes;
    }
  }

  lemma {:induction false} HostReadsFull(full: seq<seq<byte>>, rest: seq<seq<byte>>)
    requires AllFull(full)
    ensures HostReads(full + rest) == Flat(full) + HostReads(rest)
    decreases |full|
  {
    if full == [] {
      assert full + rest == rest;
    } else {
      var n := |full| - 1;
      HostReadsFull(full[..n], [full[n]] + rest);
      assert full[..n] + ([full[n]] + rest) == full + rest;
      assert ([full[n]] + rest)[1..] == rest;
    }
  }

  /**
    For every reply all packets but the last are full, the last is short, and a
    host reading up to a short packet gets exactly the reply.
   */
  lemma ReplyRoundTrip(bytes: seq<byte>, later: seq<seq<byte>>)
    ensures
      var p := Finish(RespondAll(EMPTY, bytes)).packets;
      && |p| > 0 && (forall i :: 0 <= i < |p| - 1 ==> |p[i]| == 16) && |p[|p| - 1]| < 16
      && Flat(p) == bytes
      && HostReads(p + later) == bytes
  {
    RespondAllExact(bytes);
    var r, p := RespondAll(EMPTY, bytes), Finish(RespondAll(EMPTY, bytes)).packets;
    var full := p[..|p| - 1];
    assert p == full + [p[|p| - 1]];
    assert p + later == full + ([p[|p| - 1]] + later);
    if |r.bank| == BANK {
      assert full == r.packets + [r.bank];
      assert full[..|full| - 1] == r.packets;
    } else {
      assert full == r.packets;
    }
    HostReadsFull(full, [p[|p| - 1]] + later);
  }

  // A reply after others.

  lemma {:induction false} RespondAllAfter(sent: seq<seq<byte>>, bytes: seq<byte>)
    ensures
      var r := RespondAll(EMPTY, bytes);
      RespondAll(Reply(sent, []), bytes) == Reply(sent + r.packets, r.bank)
  {
    if bytes == [] {
      assert sent + [] == sent;
    } else {
      var n := |bytes| - 1;
      RespondAllAfter(sent, bytes[..n]);
      var r := RespondAll(EMPTY, bytes[..n]);
      assert sent + r.packets + [r.bank] == sent + (r.packets + [r.bank]);
    }
  }

  /** The packets of a reply follow those of earlier ones, and the host reads it from there. */
  lemma NextReply(sent: seq<seq<byte>>, bytes: seq<byte>)
    ensures
      var r := Finish(RespondAll(Reply(sent, []), bytes));
      r.bank == [] && |sent| <= |r.packets| && r.packets[..|sent|] == sent && HostReads(r.packets[|sent|..]) == bytes
  {
    hide RespondAll, HostReads, Flat;
    RespondAllAfter(sent, bytes);
    ReplyRoundTrip(bytes, []);
    var p := Finish(RespondAll(EMPTY, bytes)).packets;
    var r := Finish(RespondAll(Reply(sent, []), bytes));
    assert p + [] == p;
    assert r.packets == sent + p;
  }

  lemma RespondOne(sent: seq<seq<byte>>, b: byte)
    ensures RespondAll(Reply(sent, []), [b]) == Respond(Reply(sent, []), b)
  {
    assert [b][..0] == [];
  }
}
