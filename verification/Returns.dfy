/** What becomes of carriage returns in text mode, exactly. */
module Returns {
  import opened Bytes
  import opened Codec
  import opened Packets
  import opened RoundTrip
  import opened TextMode

  /** What decode() writes for some units in text mode, with `carry` left in rpt. */
  function Written(us: seq<Unit>, carry: nat): seq<byte> {
    if us == [] then []
    else
      var n := CountOf(us[0], carry);
      if us[0].ch == CR then Written(us[1..], n) else Rep(us[0].ch, n) + Written(us[1..], 0)
  }

  function CountOf(u: Unit, carry: nat): (n: nat) {
    if u.count > 1 then u.count else if carry == 0 then 1 else carry
  }

  /** How many octets of that are not in the text. */
  function Excess(us: seq<Unit>, carry: nat): nat {
    if us == [] then 0
    else if us[0].ch == CR then Excess(us[1..], CountOf(us[0], carry))
    else (if us[0].count == 1 && carry > 1 then carry - 1 else 0) + Excess(us[1..], 0)
  }

  lemma {:induction false} DecodeWrites(p: Prefixes, us: seq<Unit>, carry: nat)
    requires p.Usable() && Spellable(p, us)
    ensures Decode(p, true, SpellAll(p, us), carry) == Decoded(Written(us, carry), true)
    decreases |us|
  {
    hide TakeItem, Spell;
    if us != [] {
      var u, rest := us[0], SpellAll(p, us[1..]);
      UnitParses(p, u, rest);
      DecodeWrites(p, us[1..], if u.ch == CR then CountOf(u, carry) else 0);
    }
  }

  /** Nothing is lost; what is too much is counted by Excess. */
  lemma {:induction false} WrittenIsKept(us: seq<Unit>, carry: nat)
    requires AllCountable(us)
    ensures |Written(us, carry)| == |Kept(true, TextOf(us))| + Excess(us, carry)
    ensures Excess(us, carry) == 0 ==> Written(us, carry) == Kept(true, TextOf(us))
    decreases |us|
  {
    hide Kept;
    if us == [] {
      KeptRep(true, 0, 0);
      assert Rep(0, 0) == [];
    } else {
      var u := us[0];
      assert u in us && forall v <- us[1..] :: v in us;
      KeptAppend(true, Rep(u.ch, u.count), TextOf(us[1..]));
      KeptRep(true, u.ch, u.count);
      WrittenIsKept(us[1..], if u.ch == CR then CountOf(u, carry) else 0);
      assert u.ch == CR ==> Kept(true, TextOf(us)) == [] + Kept(true, TextOf(us[1..])) == Kept(true, TextOf(us[1..]));
    }
  }

  predicate SingleReturn(u: Unit) {
    u.ch == CR && u.count == 1
  }

  /** From place i to place j the units are single carriage returns, and the unit at j is another single octet. */
  predicate Reaches(us: seq<Unit>, i: nat, j: nat) {
    && i <= j < |us| && us[j].ch != CR && us[j].count == 1
    && forall k :: i <= k < j ==> SingleReturn(us[k])
  }

  /** A counted run of carriage returns, perhaps some single ones, and then a single other octet: that gets the count. */
  ghost predicate Spends(us: seq<Unit>) {
    exists i: nat, j: nat :: Spent(us, i, j)
  }

  predicate Spent(us: seq<Unit>, i: nat, j: nat) {
    i < |us| && us[i].ch == CR && us[i].count > 1 && Reaches(us, i + 1, j)
  }

  lemma ReachesBehind(us: seq<Unit>, i: nat, j: nat)
    requires us != []
    ensures Reaches(us, i + 1, j + 1) <==> Reaches(us[1..], i, j)
    ensures Spent(us, i + 1, j + 1) <==> Spent(us[1..], i, j)
  {
    var rest := us[1..];
    assert forall k :: 0 <= k < |rest| ==> rest[k] == us[k + 1];
    if Reaches(rest, i, j) {
      forall k | i + 1 <= k < j + 1
        ensures SingleReturn(us[k])
      {
        assert SingleReturn(rest[k - 1]);
      }
    }
    if Spent(rest, i, j) {
      forall k | i + 2 <= k < j + 1
        ensures SingleReturn(us[k])
      {
        assert SingleReturn(rest[k - 1]);
      }
    }
  }

  /** If there is too much, it is because a count is spent; `carry` is one that is waiting. */
  lemma {:induction false} ExcessIsSpent(us: seq<Unit>, carry: nat)
    requires AllCountable(us) && Excess(us, carry) > 0
    ensures Spends(us) || (carry > 1 && exists j: nat :: Reaches(us, 0, j))
    decreases |us|
  {
    hide Reaches, Spent;
    var u, rest := us[0], us[1..];
    assert u in us && forall v <- rest :: v in us;
    if u.ch != CR && u.count == 1 && carry > 1 {
      AtOnce(us);
    } else {
      var n := if u.ch == CR then CountOf(u, carry) else 0;
      ExcessIsSpent(rest, n);
      if i: nat, j: nat :| Spent(rest, i, j) {
        ReachesBehind(us, i, j);
        assert Spent(us, i + 1, j + 1);
      } else {
        var j: nat :| Reaches(rest, 0, j);
        ReachesBehind(us, 0, j);
        ReachesOn(us, j + 1);
      }
    }
  }

  lemma AtOnce(us: seq<Unit>)
    requires us != [] && us[0].ch != CR && us[0].count == 1
    ensures Reaches(us, 0, 0)
  {
  }

  lemma ReachesOn(us: seq<Unit>, j: nat)
    requires us != [] && us[0].ch == CR && 1 <= us[0].count && Reaches(us, 1, j)
    ensures if us[0].count > 1 then Spent(us, 0, j) else Reaches(us, 0, j)
  {
  }

  /** A count that is spent makes too much. */
  lemma {:induction false} SpentIsExcess(us: seq<Unit>, carry: nat, i: nat, j: nat)
    requires Spent(us, i, j) || (carry > 1 && Reaches(us, 0, j))
    ensures Excess(us, carry) > 0
    decreases |us|
  {
    var u, rest := us[0], us[1..];
    if !Spent(us, i, j) {
      if j > 0 {
        assert SingleReturn(us[0]);
        assert Reaches(us, 1, j);
        ReachesBehind(us, 0, j - 1);
        SpentIsExcess(rest, carry, 0, j - 1);
      }
    } else if i == 0 {
      ReachesBehind(us, 0, j - 1);
      SpentIsExcess(rest, u.count, 0, j - 1);
    } else {
      ReachesBehind(us, i - 1, j - 1);
      SpentIsExcess(rest, if u.ch == CR then CountOf(u, carry) else 0, i - 1, j - 1);
    }
  }

  lemma ExcessExactly(us: seq<Unit>)
    requires AllCountable(us)
    ensures Excess(us, 0) > 0 <==> Spends(us)
  {
    if Excess(us, 0) > 0 {
      ExcessIsSpent(us, 0);
    }
    if i: nat, j: nat :| Spent(us, i, j) {
      SpentIsExcess(us, 0, i, j);
    }
  }

  /** The text of the packets of a split, and how much too much is written for them. */
  lemma {:induction false} SplitWrites(p: Prefixes, us: seq<Unit>, maxlen: nat)
    requires p.Usable() && Spellable(p, us) && maxlen >= Room(p)
    ensures var r := DecodeEach(p, true, SpellEach(p, Split(p, us, maxlen)));
            && r.ok && |r.out| >= |Kept(true, TextOf(us))|
            && (r.out == Kept(true, TextOf(us)) <==> forall q <- Split(p, us, maxlen) :: !Spends(q))
            && (|r.out| == |Kept(true, TextOf(us))| <==> forall q <- Split(p, us, maxlen) :: !Spends(q))
    decreases |us|
  {
    hide Spell, SpellAll, Fitting, Decode, Kept, TextOf, Spends;
    if us == [] {
      NothingKept();
    } else {
      FirstFits(p, us, maxlen);
      var k := Fitting(p, us, maxlen);
      var now, later := us[..k], us[k..];
      assert us == now + later;
      assert forall u <- now :: u in us;
      assert forall u <- later :: u in us;
      DecodeWrites(p, now, 0);
      WrittenIsKept(now, 0);
      ExcessExactly(now);
      SplitWrites(p, later, maxlen);
      TextAppend(now, later);
      KeptAppend(true, TextOf(now), TextOf(later));
      var each := SpellEach(p, Split(p, us, maxlen));
      assert each[0] == SpellAll(p, now) && each[1..] == SpellEach(p, Split(p, later, maxlen));
      assert Split(p, us, maxlen) == [now] + Split(p, later, maxlen);
      InFront(now, Split(p, later, maxlen));
    }
  }

  lemma NothingKept()
    ensures Kept(true, TextOf([])) == []
  {
  }

  lemma InFront(q: seq<Unit>, qs: seq<seq<Unit>>)
    ensures (forall x <- [q] + qs :: !Spends(x)) <==> !Spends(q) && forall x <- qs :: !Spends(x)
  {
    hide Spends;
    assert q in [q] + qs && forall x <- qs :: x in [q] + qs;
  }

  /**
   * Text mode gives the file without its carriage returns exactly if in no packet
   * a counted run of them is followed, over single ones only, by a single octet of
   * another kind. Units() counts runs of three and more.
   */
  lemma ReturnsAreDroppedExactly(p: Prefixes, maxlen: nat, f: seq<byte>)
    requires p.Usable() && maxlen >= Room(p)
    ensures DecodeEach(p, true, Sent(p, maxlen, CrLf(f))) == Decoded(Kept(true, f), true)
            <==> forall q <- Split(p, Units(p, CrLf(f)), maxlen) :: !Spends(q)
  {
    hide Spends, Split, Units;
    var us := Units(p, CrLf(f));
    PacketsAreGreedy(p, maxlen, CrLf(f));
    UnitsSpellable(p, CrLf(f));
    UnitsText(p, CrLf(f));
    SplitWrites(p, us, maxlen);
    CrLfKept(f);
  }

  /** Otherwise too much is written, never too little, and decode() reports nothing. */
  lemma NeverTooLittle(p: Prefixes, maxlen: nat, f: seq<byte>)
    requires p.Usable() && maxlen >= Room(p)
    ensures var r := DecodeEach(p, true, Sent(p, maxlen, CrLf(f)));
            r.ok && (r.out != Kept(true, f) ==> |r.out| > |Kept(true, f)|)
  {
    hide Spends, Split, Units;
    var us := Units(p, CrLf(f));
    PacketsAreGreedy(p, maxlen, CrLf(f));
    UnitsSpellable(p, CrLf(f));
    UnitsText(p, CrLf(f));
    SplitWrites(p, us, maxlen);
    CrLfKept(f);
  }
}
