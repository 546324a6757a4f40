/** The gwart preprocessor: an ordered list of rules becomes a table, and the table drives the generated program. */
module Gwart {
  import opened Wrappers
  import opened Bytes

  const DOT: byte := 46
  const SBYTES := 7
  const MAXSTATES := 50
  const ROW := 96

  /** A rule as it is written: for any state or for some, and for one character or, with a dot, for all. */
  datatype Rule = Rule(anyst: bool, states: set<nat>, chr: byte)

  predicate Matches(r: Rule, state: nat, ch: int) {
    (r.anyst || state in r.states) && (r.chr == DOT || r.chr == ch)
  }

  /** Action numbers count the rules from 1: n is the first that matches, or -1 is none. */
  predicate First(rules: seq<Rule>, state: nat, ch: int, n: int) {
    if n == -1 then forall i :: 0 <= i < |rules| ==> !Matches(rules[i], state, ch)
    else
      && 1 <= n <= |rules| && Matches(rules[n - 1], state, ch)
      && forall i :: 0 <= i < n - 1 ==> !Matches(rules[i], state, ch)
  }

  // ------------------------------------------------------------ state sets

  /** The bit for a state in its octet, from the left. */
  function Mask(k: nat): bv8
    requires k < 8
  {
    if k == 0 then 0x80 else if k == 1 then 0x40 else if k == 2 then 0x20 else if k == 3 then 0x10
    else if k == 4 then 8 else if k == 5 then 4 else if k == 6 then 2 else 1
  }

  /** teststate(). */
  predicate TestState(states: seq<bv8>, state: nat)
    requires |states| == SBYTES && state < 8 * SBYTES
  {
    states[state / 8] & Mask(state % 8) != 0
  }

  ghost function Members(states: seq<bv8>): set<nat>
    requires |states| == SBYTES
  {
    set s: nat | s < 8 * SBYTES && TestState(states, s)
  }

  lemma MasksDiffer(a: bv8, j: nat, k: nat)
    requires j < 8 && k < 8
    ensures (a | Mask(j)) & Mask(k) != 0 <==> j == k || a & Mask(k) != 0
  {
    MaskMeets(j, k);
    BitsApart(a, Mask(j), Mask(k));
    if j == k {
      BitSet(a, Mask(j));
    }
  }

  lemma MaskMeets(j: nat, k: nat)
    requires j < 8 && k < 8
    ensures Mask(j) != 0 && (j != k ==> Mask(j) & Mask(k) == 0)
  {
  }

  lemma BitsApart(a: bv8, b: bv8, c: bv8)
    ensures b & c == 0 ==> (a | b) & c == a & c
  {
  }

  lemma BitSet(a: bv8, b: bv8)
    ensures (a | b) & b == b
  {
  }

  lemma BitAddsOne(states: seq<bv8>, state: nat, s: nat)
    requires |states| == SBYTES && state < 8 * SBYTES && s < 8 * SBYTES
    ensures TestState(states[state / 8 := states[state / 8] | Mask(state % 8)], s) <==> TestState(states, s) || s == state
  {
    hide Mask;
    if s / 8 == state / 8 {
      MasksDiffer(states[state / 8], state % 8, s % 8);
    }
  }

  /** Turning on the bit for a state adds the state to the set, and no other. */
  lemma BitAdds(states: seq<bv8>, state: nat)
    requires |states| == SBYTES && state < 8 * SBYTES
    ensures Members(states[state / 8 := states[state / 8] | Mask(state % 8)]) == Members(states) + {state}
  {
    hide Mask, TestState;
    forall s: nat | s < 8 * SBYTES
      ensures TestState(states[state / 8 := states[state / 8] | Mask(state % 8)], s) <==> TestState(states, s) || s == state
    {
      BitAddsOne(states, state, s);
    }
  }

  lemma NoMembers()
    ensures Members([0, 0, 0, 0, 0, 0, 0]) == {}
  {
    hide Mask;
    forall s: nat | s < 8 * SBYTES
      ensures !TestState([0, 0, 0, 0, 0, 0, 0], s)
    {
      BitsApart(0, 0, Mask(s % 8));
    }
  }

  // ---------------------------------------------------------- the rule list

  /** One transition of the linked list. */
  class Trans {
    var states: seq<bv8>
    var anyst: bool
    var inchr: byte
    var actno: int
    var nxt: Trans?

    constructor ()
      ensures |states| == SBYTES && Members(states) == {} && !anyst && nxt == null
    {
      states, anyst, inchr, actno, nxt := [0, 0, 0, 0, 0, 0, 0], false, 0, 0, null;
      new;
      NoMembers();
    }

    /** setwstate(). */
    method SetWState(state: nat)
      requires |states| == SBYTES && state < 8 * SBYTES
      modifies this`states
      ensures |states| == SBYTES && Members(states) == old(Members(states)) + {state}
    {
      var idx, msk := state / 8, Mask(state % 8);
      BitAdds(states, state);
      states := states[idx := states[idx] | msk];
    }

    ghost function AsRule(): Rule
      requires |states| == SBYTES
      reads this
    {
      Rule(anyst, Members(states), (inchr + 32) % 256)
    }
  }

  /** These nodes, in this order, are the list, and they are these rules, numbered from 1. */
  ghost predicate Lists(head: Trans?, nodes: seq<Trans>, rules: seq<Rule>)
    reads nodes
  {
    && |nodes| == |rules| && head == (if nodes == [] then null else nodes[0])
    && (forall i, j :: 0 <= i < j < |nodes| ==> nodes[i] != nodes[j])
    && (forall i :: 0 <= i < |nodes| ==> nodes[i].nxt == if i + 1 < |nodes| then nodes[i + 1] else null)
    && (forall i :: 0 <= i < |nodes| ==>
          |nodes[i].states| == SBYTES && nodes[i].AsRule() == rules[i] && nodes[i].actno == i + 1)
  }

  /** faction(): the action of the first rule that matches, by walking along the list. */
  method Faction(hd: Trans?, state: nat, chr: nat, ghost nodes: seq<Trans>, ghost rules: seq<Rule>) returns (n: int)
    requires Lists(hd, nodes, rules) && state < 8 * SBYTES && 1 <= chr < ROW
    ensures First(rules, state, chr + 32, n)
  {
    var hd := hd;
    ghost var i := 0;
    while hd != null
      invariant i <= |nodes| && hd == if i < |nodes| then nodes[i] else null
      invariant forall k :: 0 <= k < i ==> !Matches(rules[k], state, chr + 32)
      decreases |nodes| - i
    {
      assert hd.AsRule() == rules[i];
      if hd.anyst || TestState(hd.states, state) {
        if hd.inchr == DOT - 32 || hd.inchr == chr {
          return hd.actno;
        }
      }
      hd, i := hd.nxt, i + 1;
    }
    n := -1;
  }

  // ------------------------------------------------------ reading the rules

  /** What gettoken() makes of the text, the actions between the rules left out. */
  datatype Token = Sep | LBrack | RBrack | Comma | Word(chars: seq<byte>)

  /** The symbol table that the list of state names has filled; the first name has number 1. */
  predicate Symbols(sym: map<seq<byte>, nat>, nstates: nat) {
    forall name :: name in sym ==> 1 <= sym[name] <= nstates
  }

  /** At the end of the file gettoken() answers with the separator. */
  function TokenAt(ts: seq<Token>, i: nat): Token {
    if i < |ts| then ts[i] else Sep
  }

  /** A list of state names up to its closing bracket: the states, and the place behind it. */
  ghost function NamedStates(ts: seq<Token>, i: nat, sym: map<seq<byte>, nat>): (r: Option<(set<nat>, nat)>)
    ensures r.Some? ==> i < r.value.1 <= |ts|
    decreases |ts| - i
  {
    var name := TokenAt(ts, i);
    if !name.Word? || name.chars !in sym then None
    else if TokenAt(ts, i + 1) == RBrack then Some(({sym[name.chars]}, i + 2))
    else if TokenAt(ts, i + 1) != Comma then None
    else
      match NamedStates(ts, i + 2, sym)
      case None => None
      case Some((more, j)) => Some(({sym[name.chars]} + more, j))
  }

  /** The rules in the text from a place on; `pending` is a state list that has been read for the next of them. */
  ghost function RulesIn(ts: seq<Token>, i: nat, sym: map<seq<byte>, nat>, pending: Option<set<nat>>): Option<seq<Rule>>
    decreases |ts| - i
  {
    match TokenAt(ts, i)
    case Sep => Some([])
    case LBrack =>
      if pending.Some? then None
      else
        (match NamedStates(ts, i + 1, sym)
         case None => None
         case Some((states, j)) => RulesIn(ts, j, sym, Some(states)))
    case Word(chars) =>
      if |chars| != 1 then None
      else
        var r := Completed(pending, chars[0]);
        Behind([r], RulesIn(ts, i + 1, sym, None))
    case _ => None
  }

  ghost function Behind(rules: seq<Rule>, more: Option<seq<Rule>>): Option<seq<Rule>> {
    if more.None? then None else Some(rules + more.value)
  }

  /** statelist(): not ok is a fatal error. */
  method StateList(ts: seq<Token>, i: nat, sym: map<seq<byte>, nat>, nstates: nat, t: Trans) returns (ok: bool, j: nat)
    requires Symbols(sym, nstates) && nstates < MAXSTATES && |t.states| == SBYTES && i <= |ts|
    modifies t`states
    ensures ok == NamedStates(ts, i, sym).Some? && |t.states| == SBYTES
    ensures ok ==> Members(t.states) == old(Members(t.states)) + NamedStates(ts, i, sym).value.0
                   && j == NamedStates(ts, i, sym).value.1
  {
    hide Members;
    ghost var was := Members(t.states);
    ghost var goal := NamedStates(ts, i, sym);
    var curtok := Comma;
    j := i;
    while curtok != RBrack
      invariant |t.states| == SBYTES && i <= j
      invariant curtok != RBrack ==>
                  var more := NamedStates(ts, j, sym);
                  if curtok == Comma && more.Some? then
                    goal.Some? && j <= |ts| && Members(t.states) + more.value.0 == was + goal.value.0
                    && more.value.1 == goal.value.1
                  else goal.None?
      invariant curtok == RBrack ==> goal.Some? && Members(t.states) == was + goal.value.0 && j == goal.value.1
      decreases if curtok == RBrack then 0 else 1, |ts| - j
    {
      var tok := TokenAt(ts, j);
      if curtok != Comma || !tok.Word? || tok.chars !in sym {
        return false, j;
      }
      t.SetWState(sym[tok.chars]);
      curtok := TokenAt(ts, j + 1);
      j := j + 2;
    }
    ok := true;
  }

  /** The new rule goes to the end of the list. */
  method Append(head: Trans?, prev: Trans?, cur: Trans, ghost nodes: seq<Trans>, ghost rules: seq<Rule>)
    returns (head': Trans?)
    requires Lists(head, nodes, rules) && cur !in nodes
    requires prev == if nodes == [] then null else nodes[|nodes| - 1]
    requires |cur.states| == SBYTES && cur.nxt == null && cur.actno == |nodes| + 1
    modifies if prev == null then {} else {prev}
    ensures Lists(head', nodes + [cur], rules + [cur.AsRule()])
  {
    hide Members;
    head' := head;
    if head == null {
      head' := cur;
    } else {
      prev.nxt := cur;
    }
    ghost var nodes', rules' := nodes + [cur], rules + [cur.AsRule()];
    assert forall i :: 0 <= i < |nodes| ==> nodes'[i] == nodes[i];
    assert nodes'[|nodes|] == cur;
  }

  /** A state list that has been read and still waits for its character, or none. */
  ghost predicate Waiting(cur: Trans?, pending: Option<set<nat>>)
    reads cur
  {
    && (pending.Some? <==> cur != null)
    && (cur != null ==>
          |cur.states| == SBYTES && cur.nxt == null && !cur.anyst && Members(cur.states) == pending.value)
  }

  /** The rule that a character completes; without a state list before it, it is for any state. */
  ghost function Completed(pending: Option<set<nat>>, chr: byte): Rule {
    Rule(pending.None?, if pending.Some? then pending.value else {}, chr)
  }

  method Complete(chr: byte, actno: nat, cur: Trans?, ghost pending: Option<set<nat>>) returns (cur': Trans)
    requires Waiting(cur, pending)
    modifies if cur == null then {} else {cur}
    ensures if cur == null then fresh(cur') else cur' == cur
    ensures |cur'.states| == SBYTES && cur'.nxt == null && cur'.actno == actno && cur'.AsRule() == Completed(pending, chr)
  {
    hide Members;
    if cur == null {
      cur' := new Trans();
      cur'.anyst := true;
    } else {
      cur' := cur;
    }
    cur'.actno := actno;
    cur'.inchr := if chr >= 32 then chr - 32 else chr + 224;
  }

  /** What has been read, and what it leaves to be read. */
  ghost predicate ReadSoFar(ts: seq<Token>, sym: map<seq<byte>, nat>, i: nat, rules: seq<Rule>, pending: Option<set<nat>>) {
    RulesIn(ts, 0, sym, None) == Behind(rules, RulesIn(ts, i, sym, pending))
  }

  lemma ListsNothing()
    ensures Lists(null, [], [])
  {
  }

  lemma ReadNothing(ts: seq<Token>, sym: map<seq<byte>, nat>)
    ensures ReadSoFar(ts, sym, 0, [], None)
  {
    var more := RulesIn(ts, 0, sym, None);
    assert more.Some? ==> [] + more.value == more.value;
  }

  lemma ReadStates(ts: seq<Token>, sym: map<seq<byte>, nat>, i: nat, rules: seq<Rule>)
    requires ReadSoFar(ts, sym, i, rules, None) && TokenAt(ts, i) == LBrack
    ensures var named := NamedStates(ts, i + 1, sym);
            if named.Some? then ReadSoFar(ts, sym, named.value.1, rules, Some(named.value.0))
            else RulesIn(ts, 0, sym, None).None?
  {
    hide NamedStates;
  }

  lemma ReadWord(ts: seq<Token>, sym: map<seq<byte>, nat>, i: nat, rules: seq<Rule>, pending: Option<set<nat>>)
    requires ReadSoFar(ts, sym, i, rules, pending) && TokenAt(ts, i).Word?
    ensures var chars := TokenAt(ts, i).chars;
            if |chars| == 1 then
              var r := Completed(pending, chars[0]);
              ReadSoFar(ts, sym, i + 1, rules + [r], None)
            else RulesIn(ts, 0, sym, None).None?
  {
    hide NamedStates;
    var chars := TokenAt(ts, i).chars;
    if |chars| == 1 {
      var r := Completed(pending, chars[0]);
      var more := RulesIn(ts, i + 1, sym, None);
      assert more.Some? ==> rules + ([r] + more.value) == rules + [r] + more.value;
    }
  }

  lemma ReadOther(ts: seq<Token>, sym: map<seq<byte>, nat>, i: nat, rules: seq<Rule>, pending: Option<set<nat>>)
    requires ReadSoFar(ts, sym, i, rules, pending)
    ensures TokenAt(ts, i).Sep? ==> RulesIn(ts, 0, sym, None) == Some(rules)
    ensures TokenAt(ts, i).RBrack? || TokenAt(ts, i).Comma? || (TokenAt(ts, i).LBrack? && pending.Some?) ==>
              RulesIn(ts, 0, sym, None).None?
  {
    hide NamedStates;
    assert rules + [] == rules;
  }

  /** rdrules(): the list of the rules in the text, numbered in their order. Not ok is a fatal error. */
  method RdRules(ts: seq<Token>, sym: map<seq<byte>, nat>, nstates: nat)
    returns (ok: bool, head: Trans?, nacts: nat, ghost nodes: seq<Trans>, ghost rules: seq<Rule>)
    requires Symbols(sym, nstates) && nstates < MAXSTATES
    ensures ok == RulesIn(ts, 0, sym, None).Some?
    ensures ok ==> RulesIn(ts, 0, sym, None) == Some(rules) && Lists(head, nodes, rules) && nacts == |rules|
  {
    hide Members, NamedStates, RulesIn, ReadSoFar, Lists, Completed;
    ReadNothing(ts, sym);
    var cur: Trans?, prev: Trans? := null, null;
    ok, head, nacts, nodes, rules := false, null, 0, [], [];
    ListsNothing();
    var i: nat := 0;
    ghost var pending: Option<set<nat>> := None;
    while TokenAt(ts, i) != Sep
      invariant i <= |ts| && nacts == |rules| == |nodes| && Lists(head, nodes, rules) && !ok
      invariant fresh(nodes) && (cur != null ==> fresh(cur) && cur !in nodes) && Waiting(cur, pending)
      invariant prev == if nodes == [] then null else nodes[|nodes| - 1]
      invariant ReadSoFar(ts, sym, i, rules, pending)
      decreases |ts| - i
    {
      ReadOther(ts, sym, i, rules, pending);
      match TokenAt(ts, i)
      case LBrack =>
        if cur != null {
          return;
        }
        ReadStates(ts, sym, i, rules);
        cur := new Trans();
        var good, j := StateList(ts, i + 1, sym, nstates, cur);
        if !good {
          return;
        }
        i, pending := j, Some(NamedStates(ts, i + 1, sym).value.0);
      case Word(chars) =>
        ReadWord(ts, sym, i, rules, pending);
        if |chars| != 1 {
          return;
        }
        nacts := nacts + 1;
        var last := Complete(chars[0], nacts, cur, pending);
        head := Append(head, prev, last, nodes, rules);
        nodes, rules := nodes + [last], rules + [Completed(pending, chars[0])];
        prev, cur, i, pending := last, null, i + 1, None;
      case _ =>
        return;
    }
    ok := true;
    ReadOther(ts, sym, i, rules, pending);
  }

  // ------------------------------------------------- rules as they are written

  /** A rule in the text: no names stand for any state. */
  datatype RuleText = RuleText(names: seq<seq<byte>>, chr: byte)

  ghost function SpellNames(names: seq<seq<byte>>): (ts: seq<Token>)
    requires names != []
    ensures |ts| == 2 * |names|
  {
    [Word(names[0])] + if |names| == 1 then [RBrack] else [Comma] + SpellNames(names[1..])
  }

  ghost function SpellRule(r: RuleText): seq<Token> {
    (if r.names == [] then [] else [LBrack] + SpellNames(r.names)) + [Word([r.chr])]
  }

  ghost function SpellRules(rs: seq<RuleText>): seq<Token> {
    if rs == [] then [Sep] else SpellRule(rs[0]) + SpellRules(rs[1..])
  }

  predicate Known(names: seq<seq<byte>>, sym: map<seq<byte>, nat>) {
    forall i :: 0 <= i < |names| ==> names[i] in sym
  }

  ghost function NumbersOf(names: seq<seq<byte>>, sym: map<seq<byte>, nat>): set<nat>
    requires Known(names, sym)
  {
    set i | 0 <= i < |names| :: sym[names[i]]
  }

  ghost function MeantBy(r: RuleText, sym: map<seq<byte>, nat>): Rule
    requires Known(r.names, sym)
  {
    Rule(r.names == [], NumbersOf(r.names, sym), r.chr)
  }

  lemma {:induction false} NamesRead(ts: seq<Token>, i: nat, names: seq<seq<byte>>, rest: seq<Token>, sym: map<seq<byte>, nat>)
    requires names != [] && Known(names, sym) && i <= |ts| && ts[i..] == SpellNames(names) + rest
    ensures NamedStates(ts, i, sym) == Some((NumbersOf(names, sym), i + 2 * |names|))
    ensures ts[i + 2 * |names|..] == rest
    decreases |names|
  {
    assert TokenAt(ts, i) == ts[i..][0] && TokenAt(ts, i + 1) == ts[i..][1];
    assert ts[i + 2..] == ts[i..][2..];
    if |names| > 1 {
      NamesRead(ts, i + 2, names[1..], rest, sym);
      assert NumbersOf(names, sym) == {sym[names[0]]} + NumbersOf(names[1..], sym) by {
        forall n | n in NumbersOf(names, sym) ensures n in {sym[names[0]]} + NumbersOf(names[1..], sym) {
          var k :| 0 <= k < |names| && n == sym[names[k]];
          assert k > 0 ==> names[k] == names[1..][k - 1];
        }
        forall n | n in NumbersOf(names[1..], sym) ensures n in NumbersOf(names, sym) {
          var k :| 0 <= k < |names| - 1 && n == sym[names[1..][k]];
          assert names[1..][k] == names[k + 1];
        }
      }
    } else {
      assert NumbersOf(names, sym) == {sym[names[0]]};
    }
  }

  lemma CharRead(ts: seq<Token>, i: nat, chr: byte, more: seq<Token>, sym: map<seq<byte>, nat>, pending: Option<set<nat>>)
    requires i <= |ts| && ts[i..] == [Word([chr])] + more
    ensures i + 1 <= |ts| && ts[i + 1..] == more
    ensures RulesIn(ts, i, sym, pending) == Behind([Completed(pending, chr)], RulesIn(ts, i + 1, sym, None))
  {
    hide NamedStates;
    assert TokenAt(ts, i) == ts[i..][0];
    assert ts[i + 1..] == ts[i..][1..];
  }

  /** One rule is read, with a state list, */
  lemma ListedRuleRead(ts: seq<Token>, i: nat, r: RuleText, more: seq<Token>, sym: map<seq<byte>, nat>)
    requires r.names != [] && Known(r.names, sym) && i <= |ts| && ts[i..] == SpellRule(r) + more
    ensures var j := i + |SpellRule(r)|;
            && j <= |ts| && ts[j..] == more
            && RulesIn(ts, i, sym, None) == Behind([MeantBy(r, sym)], RulesIn(ts, j, sym, None))
  {
    hide SpellNames, NamedStates, Known, Behind;
    var word := [Word([r.chr])] + more;
    assert SpellRule(r) + more == [LBrack] + (SpellNames(r.names) + word);
    assert TokenAt(ts, i) == ts[i..][0] == LBrack;
    assert ts[i + 1..] == ts[i..][1..] == SpellNames(r.names) + word;
    NamesRead(ts, i + 1, r.names, word, sym);
    var j := i + 1 + 2 * |r.names|;
    CharRead(ts, j, r.chr, more, sym, Some(NumbersOf(r.names, sym)));
  }

  /** or without one. */
  lemma RuleRead(ts: seq<Token>, i: nat, r: RuleText, more: seq<Token>, sym: map<seq<byte>, nat>)
    requires Known(r.names, sym) && i <= |ts| && ts[i..] == SpellRule(r) + more
    ensures var j := i + |SpellRule(r)|;
            && j <= |ts| && ts[j..] == more
            && RulesIn(ts, i, sym, None) == Behind([MeantBy(r, sym)], RulesIn(ts, j, sym, None))
  {
    hide SpellNames, NamedStates;
    if r.names == [] {
      assert NumbersOf([], sym) == {};
      assert SpellRule(r) == [Word([r.chr])];
      CharRead(ts, i, r.chr, more, sym, None);
    } else {
      ListedRuleRead(ts, i, r, more, sym);
    }
  }

  ghost function Meant(texts: seq<RuleText>, sym: map<seq<byte>, nat>): (rules: seq<Rule>)
    requires forall k :: 0 <= k < |texts| ==> Known(texts[k].names, sym)
    ensures |rules| == |texts| && forall k :: 0 <= k < |rules| ==> rules[k] == MeantBy(texts[k], sym)
  {
    if texts == [] then [] else [MeantBy(texts[0], sym)] + Meant(texts[1..], sym)
  }

  /** Reading rules that have been written gives the rules that were meant, in their order. */
  lemma {:induction false} RulesRead(ts: seq<Token>, i: nat, texts: seq<RuleText>, rest: seq<Token>, sym: map<seq<byte>, nat>)
    requires i <= |ts| && ts[i..] == SpellRules(texts) + rest
    requires forall k :: 0 <= k < |texts| ==> Known(texts[k].names, sym)
    ensures RulesIn(ts, i, sym, None) == Some(Meant(texts, sym))
    decreases |texts|
  {
    hide SpellRule, NamedStates, MeantBy, Known;
    if texts == [] {
      assert TokenAt(ts, i) == ts[i..][0];
    } else {
      assert SpellRules(texts) + rest == SpellRule(texts[0]) + (SpellRules(texts[1..]) + rest);
      RuleRead(ts, i, texts[0], SpellRules(texts[1..]) + rest, sym);
      RulesRead(ts, i + |SpellRule(texts[0])|, texts[1..], rest, sym);
    }
  }

  /** A state list that is accepted has been written with known names. */
  lemma {:induction false} NamesWritten(ts: seq<Token>, i: nat, sym: map<seq<byte>, nat>) returns (names: seq<seq<byte>>)
    requires NamedStates(ts, i, sym).Some?
    ensures names != [] && Known(names, sym)
    ensures var (states, j) := NamedStates(ts, i, sym).value; states == NumbersOf(names, sym) && ts[i..j] == SpellNames(names)
    decreases |ts| - i
  {
    var name := ts[i].chars;
    if TokenAt(ts, i + 1) == RBrack {
      names := [name];
      assert NumbersOf(names, sym) == {sym[name]};
      assert ts[i..i + 2] == [ts[i], ts[i + 1]];
    } else {
      var more := NamesWritten(ts, i + 2, sym);
      names := [name] + more;
      var j := NamedStates(ts, i, sym).value.1;
      NumbersOfOneMore(name, more, sym);
      assert names[1..] == more;
      assert ts[i..j] == [ts[i], ts[i + 1]] + ts[i + 2..j];
    }
  }

  lemma NumbersOfOneMore(name: seq<byte>, more: seq<seq<byte>>, sym: map<seq<byte>, nat>)
    requires name in sym && Known(more, sym)
    ensures Known([name] + more, sym) && NumbersOf([name] + more, sym) == {sym[name]} + NumbersOf(more, sym)
  {
    var names := [name] + more;
    assert forall k :: 0 <= k < |more| ==> names[k + 1] == more[k];
    forall n | n in NumbersOf(more, sym)
      ensures n in NumbersOf(names, sym)
    {
      var k :| 0 <= k < |more| && n == sym[more[k]];
      assert names[k + 1] == more[k];
    }
    assert names[0] == name;
  }

  ghost function SpellBody(rs: seq<RuleText>): seq<Token> {
    if rs == [] then [] else SpellRule(rs[0]) + SpellBody(rs[1..])
  }

  /** Where the rules end: at a separator, or at a state list with one behind it, which is passed over. */
  ghost predicate RulesEnd(ts: seq<Token>, k: nat, sym: map<seq<byte>, nat>) {
    || TokenAt(ts, k) == Sep
    || (TokenAt(ts, k) == LBrack && NamedStates(ts, k + 1, sym).Some? && TokenAt(ts, NamedStates(ts, k + 1, sym).value.1) == Sep)
  }

  /** The first of the rules, from i to its character at j, or the end of them all. */
  lemma FirstWritten(ts: seq<Token>, i: nat, sym: map<seq<byte>, nat>) returns (ended: bool, j: nat, r: RuleText)
    requires i <= |ts| && RulesIn(ts, i, sym, None).Some?
    ensures ended ==> RulesEnd(ts, i, sym) && RulesIn(ts, i, sym, None) == Some([])
    ensures !ended ==>
              && i <= j < |ts| && Known(r.names, sym) && ts[i..j + 1] == SpellRule(r)
              && RulesIn(ts, j + 1, sym, None).Some?
              && RulesIn(ts, i, sym, None) == Some([MeantBy(r, sym)] + RulesIn(ts, j + 1, sym, None).value)
  {
    hide SpellNames, NumbersOf, Known, SpellRule;
    ended, j, r := TokenAt(ts, i) == Sep, i, RuleText([], 0);
    if !ended {
      var names: seq<seq<byte>> := [];
      if TokenAt(ts, i) == LBrack {
        names := NamesWritten(ts, i + 1, sym);
        j := NamedStates(ts, i + 1, sym).value.1;
        if TokenAt(ts, j) == Sep {
          ended := true;
          return;
        }
      }
      RuleWritten(ts, i, j, names, sym);
      r := RuleText(names, ts[j].chars[0]);
    }
  }

  /** What is accepted is a list of rules as they are written, and these are the rules read. */
  lemma {:induction false} RulesWritten(ts: seq<Token>, i: nat, sym: map<seq<byte>, nat>) returns (texts: seq<RuleText>, k: nat)
    requires i <= |ts| && RulesIn(ts, i, sym, None).Some?
    ensures forall t :: 0 <= t < |texts| ==> Known(texts[t].names, sym)
    ensures RulesIn(ts, i, sym, None) == Some(Meant(texts, sym))
    ensures i <= k <= |ts| && ts[i..k] == SpellBody(texts) && RulesEnd(ts, k, sym)
    decreases |ts| - i
  {
    hide SpellRule, NumbersOf, Known, RulesIn, RulesEnd, MeantBy;
    var ended, j, r := FirstWritten(ts, i, sym);
    if ended {
      texts, k := [], i;
    } else {
      var rest;
      rest, k := RulesWritten(ts, j + 1, sym);
      texts := [r] + rest;
      assert texts[1..] == rest;
      assert ts[i..k] == ts[i..j + 1] + ts[j + 1..k];
    }
  }

  /** One rule of the text, from i to its character at j. */
  lemma RuleWritten(ts: seq<Token>, i: nat, j: nat, names: seq<seq<byte>>, sym: map<seq<byte>, nat>)
    requires i <= j < |ts| && ts[j].Word? && |ts[j].chars| == 1
    requires if names == [] then i == j
             else
               && TokenAt(ts, i) == LBrack && i + 1 <= j && Known(names, sym) && ts[i + 1..j] == SpellNames(names)
               && NamedStates(ts, i + 1, sym) == Some((NumbersOf(names, sym), j))
    ensures Known(names, sym)
    ensures var r := RuleText(names, ts[j].chars[0]);
            && ts[i..j + 1] == SpellRule(r)
            && RulesIn(ts, i, sym, None) == Behind([MeantBy(r, sym)], RulesIn(ts, j + 1, sym, None))
  {
    hide SpellNames, NamedStates;
    var word := [Word([ts[j].chars[0]])];
    assert ts[j].chars == [ts[j].chars[0]];
    if names == [] {
      assert NumbersOf([], sym) == {};
      assert ts[i..j + 1] == word;
      assert SpellRule(RuleText(names, ts[j].chars[0])) == word;
    } else {
      assert ts[i..j + 1] == [LBrack] + ts[i + 1..j] + [ts[j]];
    }
  }

  // -------------------------------------------------------------- the table

  function Cell(tbl: seq<int>, state: nat, c: nat): int
    requires state * ROW + c < |tbl|
  {
    tbl[state * ROW + c]
  }

  /** The table does what a search of the rules would do; its first column is empty. */
  ghost predicate Tabulated(tbl: seq<int>, rules: seq<Rule>, nstates: nat) {
    && ROW * (nstates + 1) <= |tbl|
    && (forall state: nat, c: nat :: state <= nstates && 1 <= c < ROW ==> First(rules, state, c + 32, Cell(tbl, state, c)))
    && (forall state: nat :: state <= nstates ==> Cell(tbl, state, 0) == if state < nstates then -1 else 0)
  }

  /** emptytbl(). */
  method EmptyTbl(tbl: array<int>, nstates: nat)
    requires nstates * ROW <= tbl.Length
    modifies tbl
    ensures forall i :: 0 <= i < tbl.Length ==> tbl[i] == if i < nstates * ROW then -1 else old(tbl[i])
  {
    for i := 0 to nstates * ROW
      invariant forall k :: 0 <= k < tbl.Length ==> tbl[k] == if k < i then -1 else old(tbl[k])
    {
      tbl[i] := -1;
    }
  }

  /** addaction(). */
  method AddAction(tbl: array<int>, act: int, state: nat, chr: nat)
    requires chr < ROW && state * ROW + chr < tbl.Length
    modifies tbl
    ensures forall s: nat, c: nat :: c < ROW && s * ROW + c < tbl.Length ==>
              Cell(tbl[..], s, c) == if s == state && c == chr then act else Cell(old(tbl[..]), s, c)
  {
    tbl[state * ROW + chr] := act;
  }

  /** The loops over states and characters. */
  method FillTable(hd: Trans?, nstates: nat, tbl: array<int>, ghost nodes: seq<Trans>, ghost rules: seq<Rule>)
    requires Lists(hd, nodes, rules) && nstates < MAXSTATES && tbl.Length == MAXSTATES * ROW
    requires forall i :: 0 <= i < tbl.Length ==> tbl[i] == 0
    modifies tbl
    ensures Tabulated(tbl[..], rules, nstates)
  {
    hide First, Lists;
    EmptyTbl(tbl, nstates);
    for state := 0 to nstates + 1
      invariant Lists(hd, nodes, rules)
      invariant forall s: nat :: s <= nstates ==> Cell(tbl[..], s, 0) == if s < nstates then -1 else 0
      invariant forall s: nat, k: nat :: s < state && 1 <= k < ROW ==> First(rules, s, k + 32, Cell(tbl[..], s, k))
    {
      for c := 1 to ROW
        invariant Lists(hd, nodes, rules)
        invariant forall s: nat :: s <= nstates ==> Cell(tbl[..], s, 0) == if s < nstates then -1 else 0
        invariant forall s: nat, k: nat :: s < state && 1 <= k < ROW ==> First(rules, s, k + 32, Cell(tbl[..], s, k))
        invariant forall k: nat :: 1 <= k < c ==> First(rules, state, k + 32, Cell(tbl[..], state, k))
      {
        var act := Faction(hd, state, c, nodes, rules);
        AddAction(tbl, act, state, c);
      }
    }
  }

  // -------------------------------------------------- the generated program

  /** The generated table has elements of type short. */
  function Short(x: int): int {
    (x + 0x8000) % 0x1_0000 - 0x8000
  }

  function Written(tbl: seq<int>, nstates: nat): seq<int>
    requires ROW * (nstates + 1) <= |tbl|
  {
    seq(ROW * (nstates + 1), i requires 0 <= i < ROW * (nstates + 1) => Short(tbl[i]))
  }

  /** One round of the generated loop: the action the switch comes to for this input, if to any. */
  function Dispatch(gen: seq<int>, nacts: nat, state: nat, input: int): Option<nat>
    requires ROW * (state + 1) <= |gen|
  {
    var c := if input - 32 < 0 || input - 32 > 95 then 0 else input - 32;
    var actno := gen[c + state * ROW];
    if actno != -1 && 1 <= actno <= nacts then Some(actno) else None
  }

  /** The rules say what is done for one input in one state. */
  ghost predicate Intended(rules: seq<Rule>, state: nat, input: int, action: Option<nat>) {
    if 33 <= input <= 127 then First(rules, state, input, if action.Some? then action.value else -1) && action != Some(0)
    else action == None
  }

  lemma FirstIsOne(rules: seq<Rule>, state: nat, ch: int, m: int, n: int)
    requires First(rules, state, ch, m) && First(rules, state, ch, n)
    ensures m == n
  {
  }

  /**
   * The generated program does what the rules say, in each state and for each
   * input, exactly if the number of the rule's action fits into a short.
   */
  lemma DispatchIsFirstMatch(tbl: seq<int>, rules: seq<Rule>, nstates: nat, state: nat, input: int, action: Option<nat>)
    requires nstates < MAXSTATES && Tabulated(tbl, rules, nstates) && state <= nstates
    requires Intended(rules, state, input, action)
    ensures Dispatch(Written(tbl, nstates), |rules|, state, input) == action
            <==> action.None? || action.value <= 32767
  {
    var gen := Written(tbl, nstates);
    if 33 <= input <= 127 {
      var n, cell := if action.Some? then action.value else -1, Cell(tbl, state, input - 32);
      FirstIsOne(rules, state, input, n, cell);
      assert gen[input - 32 + state * ROW] == Short(n);
    } else {
      assert gen[0 + state * ROW] == Short(Cell(tbl, state, 0));
    }
  }

  /** gwart as a whole, on a fresh table: not ok is a fatal error in the rules. */
  method Compile(ts: seq<Token>, sym: map<seq<byte>, nat>, nstates: nat)
    returns (ok: bool, gen: seq<int>, nacts: nat, ghost rules: seq<Rule>)
    requires Symbols(sym, nstates) && nstates < MAXSTATES
    ensures ok == RulesIn(ts, 0, sym, None).Some?
    ensures ok ==> RulesIn(ts, 0, sym, None) == Some(rules) && nacts == |rules| && |gen| == ROW * (nstates + 1)
    ensures ok && nacts <= 32767 ==>
              forall state: nat, input: int, action: Option<nat> ::
                state <= nstates && Intended(rules, state, input, action) ==>
                Dispatch(gen, nacts, state, input) == action
  {
    hide Tabulated, Intended, First, Dispatch, RulesIn, Lists;
    var head: Trans?;
    ghost var nodes;
    ok, head, nacts, nodes, rules := RdRules(ts, sym, nstates);
    gen := [];
    if ok {
      var tbl := new int[MAXSTATES * ROW](i => 0);
      FillTable(head, nstates, tbl, nodes, rules);
      gen := Written(tbl[..], nstates);
      forall state: nat, input: int, action: Option<nat> |
        nacts <= 32767 && state <= nstates && Intended(rules, state, input, action)
        ensures Dispatch(gen, nacts, state, input) == action
      {
        DispatchIsFirstMatch(tbl[..], rules, nstates, state, input, action);
        ActionIsARule(rules, state, input, action);
      }
    }
  }

  lemma ActionIsARule(rules: seq<Rule>, state: nat, input: int, action: Option<nat>)
    requires Intended(rules, state, input, action)
    ensures action.Some? ==> action.value <= |rules|
  {
  }
}
