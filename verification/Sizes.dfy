/** How long data packets get once the ends have agreed on their lengths. */
module Sizes {
  import opened Bytes
  import opened Codec
  import opened Packets
  import opened RoundTrip
  import opened Parity
  import opened Framing
  import opened Port
  import opened Negotiation
  import opened Transaction

  /** sfile(): the longest data field for a packet length and a block check. */
  function MaxSiz(spsiz: int, bctr: int): int {
    spsiz - (bctr + 3) - (if spsiz > 94 then 4 else 0)
  }

  /** Any receive length that can be configured leaves the packet cutter enough room. */
  lemma RoomAfterNegotiation(s: Settings, r: Settings)
    requires Ready(s) && Ready(r) && s.eighth.ebq == AMPERSAND && r.eighth.ebq == AMPERSAND
    ensures var p := Exchange(s, r);
            Room(PrefixesOf(p.sender)) <= MaxSiz(p.sender.basic.spsiz, p.sender.checks.bctr) <= MAX_SP
  {
    EndsAgree(s, r);
  }

  /**
   * A data field no longer than that gives a packet the receiver has said it can
   * take: its length field in the short form, or the whole of it in the long form,
   * is within the limit, and it fits the buffers of both ends.
   */
  lemma PacketFits(m: LineMode, spsiz: int, n: nat, kind: byte, data: seq<byte>)
    requires m.Valid() && m.spadn == 0 && n < 64 && 40 <= spsiz <= MAX_SP
    requires |data| <= MaxSiz(spsiz, m.bctu)
    ensures |data| + m.bctu <= 9024
    ensures if Long(m, |data|) then |Frame(m, n, kind, data)| <= spsiz && spsiz > 94
            else |data| + m.bctu + 2 <= spsiz && Frame(m, n, kind, data)[1] == ToChar(|data| + m.bctu + 2)
    ensures |Packed(m, CR, n, kind, data)| < SNDPKT && |Frame(m, n, kind, data)| <= MAX_RP
  {
    FrameLength(m, n, kind, data);
    hide CheckField;
  }

  /**
   * How much of the limit a full data packet uses: beyond 99 octets all of it, and
   * up to 94 all but one of what its length field may say.
   */
  lemma FullPacket(m: LineMode, spsiz: int, n: nat, kind: byte, data: seq<byte>)
    requires m.Valid() && m.spadn == 0 && n < 64 && 40 <= spsiz <= MAX_SP && |data| == MaxSiz(spsiz, m.bctu)
    ensures |data| + m.bctu <= 9024
    ensures spsiz > 99 ==> |Frame(m, n, kind, data)| == spsiz
    ensures spsiz <= 94 ==> UnChar(Frame(m, n, kind, data)[1]) == spsiz - 1
    ensures 94 < spsiz <= 99 ==> UnChar(Frame(m, n, kind, data)[1]) == spsiz - 5
  {
    FrameLength(m, n, kind, data);
    FrameLayout(m, n, kind, data);
    hide CheckField, Frame;
  }

  /**
   * sndpkt has room for all packets with padding, too, exactly as long as padding
   * and packet length together leave room for the terminators. The padding asked
   * for is xunchar() of an octet.
   */
  lemma SndpktSufficesExactly(m: LineMode, spsiz: int)
    requires m.Valid() && m.spadn <= 223 && 40 <= spsiz <= MAX_SP
    ensures (forall len: nat :: len <= MaxSiz(spsiz, m.bctu) ==> HasRoom(m, len)) <==> m.spadn + spsiz + 2 <= SNDPKT
  {
    if m.spadn + spsiz + 2 > SNDPKT {
      assert !HasRoom(m, MaxSiz(spsiz, m.bctu));
    }
  }

  /** A data packet on this line keeps within a packet length and fits the buffers of both ends. */
  ghost predicate InBounds(m: LineMode, urpsiz: int, n: nat, d: seq<byte>)
    requires m.Valid() && n < 64
  {
    && |d| + m.bctu <= 9024 && |Packed(m, CR, n, DATA, d)| < SNDPKT && |Frame(m, n, DATA, d)| <= MAX_RP
    && (if Long(m, |d|) then |Frame(m, n, DATA, d)| <= urpsiz else |d| + m.bctu + 2 <= urpsiz)
  }

  /**
   * Every data packet of every file, between any two ends, is neither empty nor
   * too long; with block check 1 or 3 it keeps within what the receiver has said it
   * can take.
   */
  lemma DataPacketsFit(s: Settings, r: Settings, par: Parity, f: seq<byte>, n: nat)
    requires Ready(s) && Ready(r) && s.eighth.ebq == AMPERSAND && r.eighth.ebq == AMPERSAND && n < 64
    ensures var t := Exchange(s, r).sender;
            var maxsiz := MaxSiz(t.basic.spsiz, t.checks.bctr);
            && maxsiz >= 0 && t.checks.bctr >= 0
            && var m, packets := LineMode(t.checks.bctr, par, 0, NUL), Sent(PrefixesOf(t), maxsiz, f);
               && WithinLimit(packets, maxsiz)
               && (m.Valid() ==> forall d <- packets :: InBounds(m, r.local.urpsiz, n, d))
  {
    hide Exchange, Sent, InBounds;
    EndsAgree(s, r);
    RoomAfterNegotiation(s, r);
    var t := Exchange(s, r).sender;
    var maxsiz := MaxSiz(t.basic.spsiz, t.checks.bctr);
    var m := LineMode(t.checks.bctr, par, 0, NUL);
    FileRoundTrip(PrefixesOf(t), false, maxsiz, f);
    if m.Valid() {
      forall d | d in Sent(PrefixesOf(t), maxsiz, f)
        ensures InBounds(m, r.local.urpsiz, n, d)
      {
        PacketInBounds(m, r.local.urpsiz, n, d);
      }
    }
  }

  lemma PacketInBounds(m: LineMode, urpsiz: int, n: nat, d: seq<byte>)
    requires m.Valid() && m.spadn == 0 && n < 64 && 40 <= urpsiz <= MAX_SP && |d| <= MaxSiz(urpsiz, m.bctu)
    ensures InBounds(m, urpsiz, n, d)
  {
    hide Frame, Packed;
    PacketFits(m, urpsiz, n, DATA, d);
  }

  /**
   * The agreed parameters meet every condition the transfer of files depends on,
   * exactly if the ends do not agree on block check type 2.
   */
  lemma NegotiatedConfigIsValid(s: Settings, r: Settings, par: Parity, text: bool)
    requires Ready(s) && Ready(r) && s.eighth.ebq == AMPERSAND && r.eighth.ebq == AMPERSAND
    requires !par.NoParity? ==> s.local.parity || r.local.parity
    ensures var t := Exchange(s, r).sender;
            && MaxSiz(t.basic.spsiz, t.checks.bctr) >= 0 && t.checks.bctr >= 0
            && (ValidConfig(Config(LineMode(t.checks.bctr, par, 0, NUL), PrefixesOf(t), text,
                                   MaxSiz(t.basic.spsiz, t.checks.bctr), t.features.attributes))
                <==> !(s.checks.bctr == 2 && r.checks.bctr <= 2))
  {
    hide Exchange;
    EndsAgree(s, r);
    RoomAfterNegotiation(s, r);
  }
}
