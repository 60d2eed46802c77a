/**
  The text senders of the EtherCOM client: a line of text is cut into packets of eight, which go
  out over TCP as bytes or over the serial port as characters.

  A packet list is fixed by what is promised about it: it concatenates to the text, every packet
  but the last has eight elements, and none is empty.
*/
module Packetiser {
  import opened MachineInt
  import opened Sequences

  // ----- what a packetisation is

  ghost predicate Packetises<T(!new)>(packets: seq<seq<T>>, text: seq<T>)
  {
    && Flatten(packets) == text
    && (forall i :: 0 <= i < |packets| - 1 ==> |packets[i]| == 8)
    && (packets != [] ==> 1 <= |packets[|packets| - 1]| <= 8)
  }

  /** The full packets at multiples of eight, and the remainder if there is one. */
  function Packets<T>(text: seq<T>): seq<seq<T>>
  {
    var full := seq(|text| / 8, i requires 0 <= i < |text| / 8 => text[8 * i..8 * i + 8]);
    if |text| % 8 > 0 then full + [text[|text| - |text| % 8..]] else full
  }

  function NumPackets(n: nat): nat { n / 8 + if n % 8 > 0 then 1 else 0 }

  lemma PacketAt<T>(text: seq<T>, i: nat)
    requires i < NumPackets(|text|)
    ensures |Packets(text)| == NumPackets(|text|)
    ensures Packets(text)[i] == if i < |text| / 8 then text[8 * i..8 * i + 8] else text[|text| - |text| % 8..]
  {
  }

  lemma {:induction false} FlattenFull<T>(packets: seq<seq<T>>, text: seq<T>, n: nat)
    requires n <= |packets| && 8 * n <= |text|
    requires forall i :: 0 <= i < n ==> packets[i] == text[8 * i..8 * i + 8]
    ensures Flatten(packets[..n]) == text[..8 * n]
  {
    if n == 0 {
    } else {
      FlattenFull(packets, text, n - 1);
      assert packets[..n][..n - 1] == packets[..n - 1];
    }
  }

  /** The cut conserves the text and has ceil(n/8) packets. */
  lemma PacketsPacketise<T(!new)>(text: seq<T>)
    ensures Packetises(Packets(text), text) && |Packets(text)| == (|text| + 7) / 8
  {
    var p, n := Packets(text), |text| / 8;
    assert |text| == 8 * n + |text| % 8;
    forall i | 0 <= i < |p|
      ensures p[i] == if i < n then text[8 * i..8 * i + 8] else text[8 * n..]
    {
      PacketAt(text, i);
    }
    FlattenFull(p, text, n);
    WholeFromFull(p, text, n);
  }

  lemma WholeFromFull<T>(p: seq<seq<T>>, text: seq<T>, n: nat)
    requires 8 * n <= |text| < 8 * n + 8 && |p| == n + if |text| > 8 * n then 1 else 0
    requires |p| > n ==> p[n] == text[8 * n..]
    requires Flatten(p[..n]) == text[..8 * n]
    ensures Flatten(p) == text
  {
    var m := 8 * n;
    if |p| > n {
      assert p[..|p| - 1] == p[..n];
      assert Flatten(p) == text[..m] + text[m..];
    } else {
      assert p[..n] == p;
      assert text[..m] == text;
    }
  }

  lemma {:induction false} FlattenLength<T>(packets: seq<seq<T>>)
    requires forall i :: 0 <= i < |packets| ==> |packets[i]| == 8
    ensures |Flatten(packets)| == 8 * |packets|
  {
    if packets == [] {
    } else {
      FlattenLength(packets[..|packets| - 1]);
    }
  }

  /** Nothing else packetises the text: the three promises determine every packet. */
  lemma {:induction false} PacketisationUnique<T(!new)>(p: seq<seq<T>>, q: seq<seq<T>>, text: seq<T>)
    requires Packetises(p, text) && Packetises(q, text)
    ensures p == q
  {
    PacketCount(p, text);
    PacketCount(q, text);
    if p == [] {
    } else {
      var n := |p|;
      var p', q' := p[..n - 1], q[..n - 1];
      FlattenLength(p');
      FlattenLength(q');
      assert Flatten(p') == text[..8 * (n - 1)] == Flatten(q');
      assert p[n - 1] == text[8 * (n - 1)..] == q[n - 1];
      FullPacketsUnique(p', q');
      assert p == p' + [p[n - 1]] && q == q' + [q[n - 1]];
    }
  }

  lemma PacketCount<T(!new)>(p: seq<seq<T>>, text: seq<T>)
    requires Packetises(p, text)
    ensures |p| == (|text| + 7) / 8
  {
    if p != [] {
      FlattenLength(p[..|p| - 1]);
    }
  }

  lemma {:induction false} FullPacketsUnique<T>(p: seq<seq<T>>, q: seq<seq<T>>)
    requires |p| == |q| && Flatten(p) == Flatten(q)
    requires forall i :: 0 <= i < |p| ==> |p[i]| == 8 && |q[i]| == 8
    ensures p == q
  {
    if p == [] {
    } else {
      var n := |p|;
      var p', q' := p[..n - 1], q[..n - 1];
      FlattenLength(p');
      FlattenLength(q');
      assert Flatten(p) == Flatten(p') + p[n - 1] && Flatten(q) == Flatten(q') + q[n - 1];
      assert Flatten(p') == Flatten(p)[..8 * (n - 1)] && Flatten(q') == Flatten(q)[..8 * (n - 1)];
      assert p[n - 1] == Flatten(p)[8 * (n - 1)..] && q[n - 1] == Flatten(q)[8 * (n - 1)..];
      FullPacketsUnique(p', q');
      assert p == p' + [p[n - 1]] && q == q' + [q[n - 1]];
    }
  }

  // ----- the two senders

  /** A character as the byte it is cast to. */
  function Truncated(text: seq<U16>): (bytes: seq<U8>)
  {
    seq(|text|, i requires 0 <= i < |text| => text[i] % 0x100)
  }

  /** TCP and serial cut the same text at the same places. */
  lemma SameCuts(text: seq<U16>)
    ensures |Packets(Truncated(text))| == |Packets(text)|
    ensures forall i :: 0 <= i < |Packets(text)| ==> Packets(Truncated(text))[i] == Truncated(Packets(text)[i])
  {
  }

  /** After `was` the peer has a first part of the text, each character as its value mod 256. */
  ghost predicate SentBytes(was: seq<U8>, now: seq<U8>, text: seq<U16>)
  {
    && |was| <= |now| <= |was| + |text| && now[..|was|] == was
    && (forall k :: |was| <= k < |now| ==> now[k] == text[k - |was|] % 0x100)
  }

  /** The state of the link: what the peer has been sent, how many more writes the connection
      takes before one fails, and the window's flag. After a failure the client is closed and
      every further write fails too. */
  datatype Link = Link(received: seq<seq<U8>>, accepts: nat, connected: bool)

  function Write(l: Link, packet: seq<U8>): Link
  {
    if l.accepts > 0 then Link(l.received + [packet], l.accepts - 1, l.connected) else Link(l.received, 0, false)
  }

  function WriteAll(l: Link, packets: seq<seq<U8>>): Link
  {
    if packets == [] then l else Write(WriteAll(l, packets[..|packets| - 1]), packets[|packets| - 1])
  }

  lemma WriteAllNext(l: Link, packets: seq<seq<U8>>, n: nat)
    requires n < |packets|
    ensures WriteAll(l, packets[..n + 1]) == Write(WriteAll(l, packets[..n]), packets[n])
  {
    assert packets[..n + 1][..n] == packets[..n];
  }

  /** The peer has the first packets the connection took, and the flag is cleared exactly when
      not all of them went out. */
  lemma {:induction false} WriteAllIsPrefix(l: Link, packets: seq<seq<U8>>)
    ensures var n := Min(|packets|, l.accepts);
            WriteAll(l, packets) ==
              Link(l.received + packets[..n], l.accepts - n, l.connected && |packets| <= l.accepts)
  {
    if packets == [] {
      assert packets[..0] == [];
    } else {
      var init := packets[..|packets| - 1];
      WriteAllIsPrefix(l, init);
      if |packets| <= l.accepts {
        assert init[..|init|] == init && packets[..|packets|] == init + [packets[|packets| - 1]];
        assert l.received + init + [packets[|packets| - 1]] == l.received + (init + [packets[|packets| - 1]]);
      } else {
        assert init[..l.accepts] == packets[..l.accepts];
      }
    }
  }

  /** The TCP window. */
  class TcpForm {
    var Connected: bool
    var received: seq<seq<U8>>
    var accepts: nat

    ghost function View(): Link
      reads this
    {
      Link(received, accepts, Connected)
    }

    constructor (accepts: nat)
      ensures View() == Link([], accepts, true)
    {
      Connected, received, this.accepts := true, [], accepts;
    }

    /** `SendOverIP`: a failed write closes the client and clears `Connected`. */
    method SendOverIP(bytes_write: array<U8>)
      modifies this
      ensures View() == Write(old(View()), bytes_write[..])
    {
      if accepts > 0 {
        received := received + [bytes_write[..]];
        accepts := accepts - 1;
      } else {
        Connected := false;
      }
    }

    /** The text branch of `TcpSend_OnKeyDown`. */
    method SendText(text: seq<U16>)
      modifies this
      ensures View() == WriteAll(old(View()), Packets(Truncated(text)))
      ensures SentBytes(Flatten(old(received)), Flatten(received), text)
      ensures |Flatten(received)| == |Flatten(old(received))| + |text| <==> (|text| + 7) / 8 <= old(accepts)
    {
      SentByWriteAll(View(), text);
      ghost var packets := Packets(Truncated(text));
      assert |packets| == NumPackets(|text|);
      if |text| > 0 {
        var NumOfPacks := |text| / 8;
        var LastPack := |text| % 8;
        SendFullPackets(text, packets);
        if LastPack > 0 {
          SendRemainder(text, packets, NumOfPacks);
          WriteAllNext(old(View()), packets, NumOfPacks);
        }
      }
      assert packets[..|packets|] == packets;
    }

    /** The full packets: one eight-byte buffer is refilled for each. */
    method SendFullPackets(text: seq<U16>, ghost packets: seq<seq<U8>>)
      requires packets == Packets(Truncated(text)) && |packets| >= |text| / 8
      modifies this
      ensures View() == WriteAll(old(View()), packets[..|text| / 8])
    {
      var NumOfPacks := |text| / 8;
      assert packets[..0] == [];
      if NumOfPacks > 0 {
        var bytes_write := new U8[8];
        var i := 0;
        while i < NumOfPacks
          invariant 0 <= i <= NumOfPacks && fresh(bytes_write) && bytes_write.Length == 8
          invariant View() == WriteAll(old(View()), packets[..i])
        {
          FillBytes(bytes_write, text, i * 8);
          PacketAt(Truncated(text), i);
          WriteAllNext(old(View()), packets, i);
          SendOverIP(bytes_write);
          i := i + 1;
        }
      }
    }

    method SendRemainder(text: seq<U16>, ghost packets: seq<seq<U8>>, ghost n: nat)
      requires packets == Packets(Truncated(text)) && n == |text| / 8 && |text| % 8 > 0 && |packets| == n + 1
      modifies this
      ensures View() == Write(old(View()), packets[n])
    {
      var LastPack := |text| % 8;
      var bytes_write := new U8[LastPack];
      FillBytes(bytes_write, text, |text| - LastPack);
      PacketAt(Truncated(text), n);
      assert bytes_write[..] == packets[n];
      SendOverIP(bytes_write);
    }
  }

  /** The inner loop: the whole buffer is overwritten with casts of consecutive characters. */
  method FillBytes(bytes_write: array<U8>, text: seq<U16>, start: nat)
    requires start + bytes_write.Length <= |text|
    modifies bytes_write
    ensures bytes_write[..] == Truncated(text)[start..start + bytes_write.Length]
  {
    var j := 0;
    while j < bytes_write.Length
      invariant 0 <= j <= bytes_write.Length
      invariant forall k :: 0 <= k < j ==> bytes_write[k] == Truncated(text)[start + k]
    {
      bytes_write[j] := text[j + start] % 0x100;
      j := j + 1;
    }
  }

  /** The first packets of a text carry a prefix of it, and the whole of it only all together. */
  lemma FirstPackets<T(!new)>(text: seq<T>, n: nat)
    requires n <= |Packets(text)|
    ensures var p := Packets(text);
            && Flatten(p[..n]) <= text
            && (Flatten(p[..n]) == text <==> n == |p|)
  {
    var p := Packets(text);
    PacketsPacketise(text);
    if n < |p| {
      FlattenFull(p, text, n);
    } else {
      assert p[..n] == p;
    }
  }

  lemma SentByWriteAll(l: Link, text: seq<U16>)
    ensures var l' := WriteAll(l, Packets(Truncated(text)));
            && SentBytes(Flatten(l.received), Flatten(l'.received), text)
            && (|Flatten(l'.received)| == |Flatten(l.received)| + |text| <==> (|text| + 7) / 8 <= l.accepts)
  {
    var packets := Packets(Truncated(text));
    var n := Min(|packets|, l.accepts);
    WriteAllIsPrefix(l, packets);
    FlattenAppends(l.received, packets[..n]);
    FirstPackets(Truncated(text), n);
    PacketsPacketise(Truncated(text));
    PrefixCharacters(Flatten(l.received), Flatten(packets[..n]), text);
    if |Flatten(packets[..n])| == |text| {
      assert Flatten(packets[..n]) == Truncated(text);
    }
  }

  lemma PrefixCharacters(was: seq<U8>, sent: seq<U8>, text: seq<U16>)
    requires sent <= Truncated(text)
    ensures SentBytes(was, was + sent, text)
  {
    forall k | |was| <= k < |was + sent|
      ensures (was + sent)[k] == text[k - |was|] % 0x100
    {
      assert (was + sent)[k] == Truncated(text)[k - |was|];
    }
  }

  /** Whatever the connection does, the peer has a prefix of the text's bytes, each a character mod
      256: all of them, with the flag still set, exactly when the connection takes ceil(n/8)
      writes. A text of characters below 256 then arrives as it was typed. */
  lemma ReceivedIsPrefix(text: seq<U16>, accepts: nat)
    ensures var l := WriteAll(Link([], accepts, true), Packets(Truncated(text)));
            && Flatten(l.received) <= Truncated(text)
            && (Flatten(l.received) == Truncated(text) <==> (|text| + 7) / 8 <= accepts)
            && (l.connected <==> (|text| + 7) / 8 <= accepts)
            && |Flatten(l.received)| <= |text|
            && (forall k :: 0 <= k < |Flatten(l.received)| ==> Flatten(l.received)[k] == text[k] % 0x100)
            && ((|text| + 7) / 8 <= accepts && (forall k :: 0 <= k < |text| ==> text[k] < 0x100) ==>
                  Flatten(l.received) == text)
  {
    LineReceived(text, accepts);
    var l := WriteAll(Link([], accepts, true), Packets(Truncated(text)));
    SameCharacters(Flatten(l.received), Truncated(text), text);
  }

  lemma LineReceived(text: seq<U16>, accepts: nat)
    ensures var l := WriteAll(Link([], accepts, true), Packets(Truncated(text)));
            && Flatten(l.received) <= Truncated(text)
            && (Flatten(l.received) == Truncated(text) <==> (|text| + 7) / 8 <= accepts)
            && (l.connected <==> (|text| + 7) / 8 <= accepts)
  {
    var bytes := Truncated(text);
    var packets := Packets(bytes);
    PacketsPacketise(bytes);
    WriteAllIsPrefix(Link([], accepts, true), packets);
    var n := Min(|packets|, accepts);
    assert [] + packets[..n] == packets[..n];
    FirstPackets(bytes, n);
  }

  /** A session: the texts of several lines sent one after the other over one link. */
  function Session(l: Link, texts: seq<seq<U16>>): Link
  {
    if texts == [] then l else WriteAll(Session(l, texts[..|texts| - 1]), Packets(Truncated(texts[|texts| - 1])))
  }

  function Typed(texts: seq<seq<U16>>): seq<U8>
  {
    if texts == [] then [] else Typed(texts[..|texts| - 1]) + Truncated(texts[|texts| - 1])
  }

  /** Over a whole session the peer's bytes are a prefix of everything typed, in order, each
      character mod 256, and they are everything as long as the flag is set: nothing goes out after
      a packet was lost. A session of characters below 256 arrives as it was typed. */
  lemma SessionIsPrefix(accepts: nat, texts: seq<seq<U16>>)
    ensures var l := Session(Link([], accepts, true), texts);
            && Flatten(l.received) <= Typed(texts)
            && (l.connected ==> Flatten(l.received) == Typed(texts))
            && (!l.connected ==> l.accepts == 0)
            && |Flatten(l.received)| <= |Flatten(texts)|
            && (forall k :: 0 <= k < |Flatten(l.received)| ==> Flatten(l.received)[k] == Flatten(texts)[k] % 0x100)
            && (l.connected && (forall k :: 0 <= k < |Flatten(texts)| ==> Flatten(texts)[k] < 0x100) ==>
                  Flatten(l.received) == Flatten(texts))
  {
    SessionPrefix(accepts, texts);
    TypedCharacters(texts);
    SameCharacters(Flatten(Session(Link([], accepts, true), texts).received), Typed(texts), Flatten(texts));
  }

  lemma SameCharacters(got: seq<U8>, bytes: seq<U8>, chars: seq<U16>)
    requires got <= bytes && |bytes| == |chars| && forall k :: 0 <= k < |bytes| ==> bytes[k] == chars[k] % 0x100
    ensures |got| <= |chars| && forall k :: 0 <= k < |got| ==> got[k] == chars[k] % 0x100
    ensures got == bytes && (forall k :: 0 <= k < |chars| ==> chars[k] < 0x100) ==> got == chars
  {
  }

  lemma {:induction false} SessionPrefix(accepts: nat, texts: seq<seq<U16>>)
    ensures var l := Session(Link([], accepts, true), texts);
            && Flatten(l.received) <= Typed(texts)
            && (l.connected ==> Flatten(l.received) == Typed(texts))
            && (!l.connected ==> l.accepts == 0)
  {
    if texts == [] {
    } else {
      var n := |texts|;
      SessionPrefix(accepts, texts[..n - 1]);
      var l := Session(Link([], accepts, true), texts[..n - 1]);
      LineIsPrefix(l, texts[n - 1]);
      if !l.connected {
        PrefixExtends(Flatten(l.received), Typed(texts[..n - 1]), Truncated(texts[n - 1]));
      }
    }
  }

  /** What was typed, character by character: every one is sent as its value mod 256. */
  lemma {:induction false} TypedCharacters(texts: seq<seq<U16>>)
    ensures |Typed(texts)| == |Flatten(texts)|
    ensures forall k :: 0 <= k < |Typed(texts)| ==> Typed(texts)[k] == Flatten(texts)[k] % 0x100
  {
    if texts != [] {
      TypedCharacters(texts[..|texts| - 1]);
    }
  }

  lemma PrefixExtends<T>(a: seq<T>, b: seq<T>, c: seq<T>)
    requires a <= b
    ensures a <= b + c
  {
    assert (b + c)[..|a|] == b[..|a|];
  }

  lemma LineIsPrefix(l: Link, text: seq<U16>)
    requires !l.connected ==> l.accepts == 0
    ensures var l', bytes := WriteAll(l, Packets(Truncated(text))), Truncated(text);
            && Flatten(l.received) <= Flatten(l'.received) <= Flatten(l.received) + bytes
            && (l'.connected ==> l.connected && Flatten(l'.received) == Flatten(l.received) + bytes)
            && (!l'.connected ==> l'.accepts == 0)
            && (!l.connected ==> l' == l)
  {
    var packets := Packets(Truncated(text));
    var n := Min(|packets|, l.accepts);
    WriteAllIsPrefix(l, packets);
    FlattenAppends(l.received, packets[..n]);
    FirstPackets(Truncated(text), n);
    assert packets[..0] == [] && l.received + [] == l.received;
  }

  /** The serial window writes the same packets as characters. */
  class RsForm {
    var written: seq<seq<U16>>

    constructor ()
      ensures written == []
    {
      written := [];
    }

    /** `Send_OnKeyDown`. */
    method SendText(ToSend: seq<U16>)
      modifies this
      ensures written == old(written) + Packets(ToSend)
    {
      ghost var packets := Packets(ToSend);
      if |ToSend| > 0 {
        var chars_write: array<U16>;
        var NumOfPacks := |ToSend| / 8;
        var LastPack := |ToSend| % 8;
        if NumOfPacks > 0 {
          chars_write := new U16[8];
          var i := 0;
          while i < NumOfPacks
            invariant 0 <= i <= NumOfPacks && fresh(chars_write) && chars_write.Length == 8
            invariant written == old(written) + packets[..i]
          {
            var j := 0;
            while j < 8
              invariant 0 <= j <= 8
              invariant chars_write[..j] == packets[i][..j]
              invariant written == old(written) + packets[..i]
            {
              chars_write[j] := ToSend[j + i * 8];
              j := j + 1;
            }
            assert chars_write[..] == packets[i];
            written := written + [chars_write[..]];
            i := i + 1;
          }
          chars_write := new U16[8];
        }
        if LastPack > 0 {
          chars_write := new U16[LastPack];
          var j := 0;
          while j < LastPack
            invariant 0 <= j <= LastPack
            invariant chars_write[..j] == packets[NumOfPacks][..j]
            invariant written == old(written) + packets[..NumOfPacks]
          {
            chars_write[j] := ToSend[|ToSend| - LastPack + j];
            j := j + 1;
          }
          assert chars_write[..] == packets[NumOfPacks];
          written := written + [chars_write[..]];
        }
      }
      assert packets[..|packets|] == packets;
    }
  }
}
