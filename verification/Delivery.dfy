// From posting to reading: what outpkt.c delivers, packet.c and message.c read back.
module Delivery {
  import opened Common
  import opened OutPkt
  import opened PktBody
  import opened PktHeader
  import opened PktFile

  // A message posted to the packet of a key.
  datatype Post = Post(key: Key, msg: Message)

  // The bytes written to the packet's stream for one message.
  function PostBytes(m: Message): seq<byte> {
    Int16(2) + PutMsgHdr(m) + m.body + [0]
  }

  // The posts as uses of the pool; `head` is the header a key's packet gets.
  function Puts(posts: seq<Post>, head: Key -> seq<byte>): (puts: seq<Put>)
    ensures |puts| == |posts|
  {
    if posts == [] then [] else
      var p := posts[|posts| - 1];
      Puts(posts[..|posts| - 1], head) + [Put(p.key, head(p.key), PostBytes(p.msg))]
  }

  // The messages posted to one key, in order.
  function For(posts: seq<Post>, key: Key): seq<Message> {
    if posts == [] then [] else
      var p := posts[|posts| - 1];
      For(posts[..|posts| - 1], key) + (if p.key == key then [p.msg] else [])
  }

  function AllBytes(ms: seq<Message>): seq<byte> {
    if ms == [] then [] else PostBytes(ms[0]) + AllBytes(ms[1..])
  }

  lemma {:induction false} AllBytesSnoc(ms: seq<Message>, m: Message)
    ensures AllBytes(ms + [m]) == AllBytes(ms) + PostBytes(m)
  {
    hide PostBytes;
    if ms == [] {
      assert ms + [m] == [m] && [m][1..] == [];
      assert AllBytes([m]) == PostBytes(m) + AllBytes([]) == PostBytes(m);
    } else {
      assert (ms + [m])[1..] == ms[1..] + [m];
      AllBytesSnoc(ms[1..], m);
    }
  }

  lemma {:induction false} MessagesThenEnd(ms: seq<Message>)
    ensures AllBytes(ms) + [0, 0] == PutMsgs(ms)
  {
    hide PutMsgHdr;
    if ms != [] {
      MessagesThenEnd(ms[1..]);
      assert PostBytes(ms[0]) + (AllBytes(ms[1..]) + [0, 0]) == PutMsgs(ms);
    } else {
      assert Int16(0) == [0, 0];
    }
  }

  // The packet of a key is its header and the bytes of the messages posted to it.
  lemma {:induction false} PacketIs(posts: seq<Post>, head: Key -> seq<byte>, key: Key)
    ensures key !in Keys(Puts(posts, head)) ==> For(posts, key) == []
    ensures key in Keys(Puts(posts, head)) ==> Packet(Puts(posts, head), key) == head(key) + AllBytes(For(posts, key))
  {
    hide PostBytes;
    if posts != [] {
      var most, p := posts[..|posts| - 1], posts[|posts| - 1];
      var puts, put := Puts(most, head), Put(p.key, head(p.key), PostBytes(p.msg));
      PacketIs(most, head, key);
      KeysSnoc(puts, put);
      PacketSnoc(puts, put, key);
      if p.key == key {
        AllBytesSnoc(For(most, key), p.msg);
        assert AllBytes([]) == [];
      } else {
        assert For(most, key) + [] == For(most, key);
      }
    }
  }

  lemma {:induction false} ForHasPosted(posts: seq<Post>, key: Key)
    ensures forall m :: m in For(posts, key) ==> exists i :: 0 <= i < |posts| && posts[i].msg == m
  {
    if posts != [] {
      var most := posts[..|posts| - 1];
      ForHasPosted(most, key);
      forall m | m in For(posts, key) ensures exists i :: 0 <= i < |posts| && posts[i].msg == m {
        if m in For(most, key) {
          var i :| 0 <= i < |most| && most[i].msg == m;
          assert posts[i].msg == m;
        } else {
          assert posts[|posts| - 1].msg == m;
        }
      }
    }
  }

  function HeadBytes(h: Header, psd: seq<byte>): seq<byte>
    requires |psd| == 4 && h.time.Some?
  {
    PutHdr(h, h.time.value, psd)
  }

  // Whatever was posted, in whatever order and with however few files open at a time: the
  // finished file of a key reads back as its header and exactly the messages posted to it,
  // in the order of posting.
  lemma DeliveredReadBack(dirs: Dirs, seqn: nat, posts: seq<Post>, head: Key -> seq<byte>, disk: map<string, seq<byte>>,
                          disk': map<string, seq<byte>>, i: nat, h: Header, psd: seq<byte>, strict: bool, size: int,
                          defZone: int, today: int)
    requires Delivered(dirs, seqn, Puts(posts, head), disk, disk')
    requires i < |Keys(Puts(posts, head))|
    requires Fits(h) && Survives(h, defZone) && |psd| == 4 && today != 0 && size > 3
    requires head(Keys(Puts(posts, head))[i]) == HeadBytes(h, psd)
    requires forall k :: 0 <= k < |posts| ==> MsgFits(posts[k].msg)
    ensures var key := Keys(Puts(posts, head))[i];
      var name := FileName(dirs, key, Number(seqn, i), "pkt");
      && name in disk' && |disk'[name]| >= HEADER
      && GetHdr(disk'[name], defZone, today) == (true, h)
      && var t := TakeWord(disk'[name][HEADER..]);
         var r := GetMsgs(t.1, t.0, strict, size);
         r.Some? && SameMessages(For(posts, key), r.value.0) && r.value.1 == []
  {
    hide FileName, Number, PutHdr, GetHdr, GetMsgs, TakeWord, PutMsgs, MsgFits, SameMessages, Survives, Fits;
    var key := Keys(Puts(posts, head))[i];
    var ms := For(posts, key);
    PacketIs(posts, head, key);
    MessagesThenEnd(ms);
    ForHasPosted(posts, key);
    assert forall k :: 0 <= k < |ms| ==> ms[k] in ms;
    assert h.time.Some? by { TimeKnown(h); }
    PacketReadBack(h, psd, ms, [], strict, size, defZone, today);
    var file := disk'[FileName(dirs, key, Number(seqn, i), "pkt")];
    assert file == HeadBytes(h, psd) + AllBytes(ms) + [0, 0];
    assert file == HeadBytes(h, psd) + (AllBytes(ms) + [0, 0]);
    assert file == HeadBytes(h, psd) + (PutMsgs(ms) + []);
  }

  lemma TimeKnown(h: Header)
    requires Fits(h)
    ensures h.time.Some?
  {
  }
}
