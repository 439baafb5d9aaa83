/** The mangle rules of the vnet namespace (addVnetMangleAndTunnelingRules) on top of iptables'
    InsertIptableRule: an ordered chain to which rules are added at the front, if absent. */
module VlanRules {
  import opened Basics

  const TUNNELING_MARK: nat := 333

  /** What a rule does to the packets it matches; Pass stands for targets without a verdict or mark. */
  datatype Target = Accept | Drop | SetMark(n: nat) | Pass

  /** `iface` None matches every packet. */
  datatype Rule = Rule(iface: Option<nat>, target: Target)

  datatype Packet = Packet(iface: nat, mark: nat)
  datatype Verdict = Accepted | Dropped | FellThrough

  function Traverse(chain: seq<Rule>, p: Packet): (Verdict, Packet)
    decreases |chain|
  {
    if chain == [] then (FellThrough, p) else
    var r := chain[0];
    if r.iface.Some? && r.iface.value != p.iface then Traverse(chain[1..], p)
    else match r.target
      case Accept => (Accepted, p)
      case Drop => (Dropped, p)
      case SetMark(n) => Traverse(chain[1..], p.(mark := n))
      case Pass => Traverse(chain[1..], p)
  }

  const MARK: Rule := Rule(None, SetMark(TUNNELING_MARK))

  function AcceptRule(vlan: nat): Rule { Rule(Some(vlan), Accept) }

  function Inserted(chain: seq<Rule>, r: Rule): seq<Rule> { if r in chain then chain else [r] + chain }

  /** The chain after a run that succeeds. */
  function Installed(chain: seq<Rule>, vlan: nat): seq<Rule> { Inserted(Inserted(chain, MARK), AcceptRule(vlan)) }

  class Prerouting {
    var chain: seq<Rule>
    var ipRuleMarks: seq<nat>   // the marks of the policy-routing rules

    constructor (chain: seq<Rule>, ipRuleMarks: seq<nat>)
      ensures this.chain == chain && this.ipRuleMarks == ipRuleMarks
    {
      this.chain, this.ipRuleMarks := chain, ipRuleMarks;
    }

    /** The check with -C answers truthfully. The insertion may fail, with or without `effect`; `reported`
        says that it reports success. */
    method InsertIptableRule(r: Rule, effect: bool, reported: bool) returns (ok: bool)
      modifies this`chain
      ensures chain == if r !in old(chain) && effect then [r] + old(chain) else old(chain)
      ensures ok <==> r in old(chain) || (effect && reported)
    {
      if r in chain {
        return true;
      }
      if effect {
        chain := [r] + chain;
      }
      if !reported {
        return false;
      }
      return r in chain;
    }

    /** `works` says that no call fails; if not, each may or may not. */
    method AddVnetRules(vlan: nat, works: bool) returns (ok: bool)
      modifies this`chain, this`ipRuleMarks
      ensures Attempted(old(chain), chain, vlan)
      ensures works ==> ok
      ensures ok ==> chain == Installed(old(chain), vlan)
      ensures ipRuleMarks == old(ipRuleMarks) || (333 !in old(ipRuleMarks) && ipRuleMarks == old(ipRuleMarks) + [333])
      ensures ok ==> 333 in ipRuleMarks
    {
      var effect, reported := *, *;
      ok := InsertIptableRule(MARK, effect || works, reported || works);
      if !ok {
        return;
      }
      effect, reported := *, *;
      ok := InsertIptableRule(AcceptRule(vlan), effect || works, reported || works);
      if !ok {
        return;
      }
      var listed := *;
      if !listed && !works {
        return false;
      }
      for i := 0 to |ipRuleMarks|
        invariant forall j :: 0 <= j < i ==> ipRuleMarks[j] != TUNNELING_MARK
        invariant ipRuleMarks == old(ipRuleMarks)
      {
        if ipRuleMarks[i] == TUNNELING_MARK {
          return true;
        }
      }
      var added := *;
      ok := added || works;
      if ok {
        ipRuleMarks := ipRuleMarks + [TUNNELING_MARK];
      }
    }
  }

  /** What one run, complete or interrupted, can make of the chain. */
  predicate Attempted(c: seq<Rule>, d: seq<Rule>, vlan: nat) {
    d == c || d == Inserted(c, MARK) || d == Installed(c, vlan)
  }

  // ---------- any number of runs ----------

  predicate IsRun(chains: seq<seq<Rule>>, vlan: nat) {
    && |chains| > 0
    && forall i {:trigger Attempted(chains[i], chains[i + 1], vlan)} ::
         0 <= i < |chains| - 1 ==> Attempted(chains[i], chains[i + 1], vlan)
  }

  predicate Without(base: seq<Rule>, vlan: nat) { MARK !in base && AcceptRule(vlan) !in base }

  lemma InstalledFromBase(base: seq<Rule>, vlan: nat)
    requires Without(base, vlan)
    ensures Inserted(base, MARK) == [MARK] + base
    ensures Installed(base, vlan) == [AcceptRule(vlan), MARK] + base
    ensures Installed([MARK] + base, vlan) == Installed(base, vlan)
    ensures Installed(Installed(base, vlan), vlan) == Installed(base, vlan)
    ensures Inserted(Installed(base, vlan), MARK) == Installed(base, vlan)
  {
    assert MARK in [MARK] + base && AcceptRule(vlan) !in [MARK] + base;
    assert [AcceptRule(vlan)] + ([MARK] + base) == [AcceptRule(vlan), MARK] + base;
    assert MARK in Installed(base, vlan) && AcceptRule(vlan) in Installed(base, vlan);
  }

  /** From a chain without the two rules, every point of every run is one of three chains. */
  lemma {:induction false} RunsStayInThree(chains: seq<seq<Rule>>, i: nat, vlan: nat)
    requires IsRun(chains, vlan) && i < |chains| && Without(chains[0], vlan)
    ensures var base := chains[0];
            chains[i] in [base, [MARK] + base, Installed(base, vlan)]
  {
    var base := chains[0];
    if i > 0 {
      var j := i - 1;
      RunsStayInThree(chains, j, vlan);
      assert Attempted(chains[j], chains[j + 1], vlan);
      InstalledFromBase(base, vlan);
    }
  }

  /** After any interrupted or repeated runs, a run that succeeds leaves each rule once, accept above
      mark, over the old chain. So a packet from the vlan interface leaves unmarked and every other
      one is marked before the old chain sees it. */
  lemma RunsEndInstalled(chains: seq<seq<Rule>>, vlan: nat)
    requires IsRun(chains, vlan) && Without(chains[0], vlan)
    ensures var c := Installed(chains[|chains| - 1], vlan); var base := chains[0];
            && c == [AcceptRule(vlan), MARK] + base
            && multiset(c)[MARK] == 1 && multiset(c)[AcceptRule(vlan)] == 1
            && forall p: Packet :: Traverse(c, p) ==
                 if p.iface == vlan then (Accepted, p) else Traverse(base, p.(mark := 333))
  {
    var base := chains[0];
    RunsStayInThree(chains, |chains| - 1, vlan);
    InstalledFromBase(base, vlan);
    var c := [AcceptRule(vlan), MARK] + base;
    assert c[1..] == [MARK] + base && ([MARK] + base)[1..] == base;
    assert multiset(c) == multiset{AcceptRule(vlan), MARK} + multiset(base);
    forall p: Packet
      ensures Traverse(c, p) == if p.iface == vlan then (Accepted, p) else Traverse(base, p.(mark := TUNNELING_MARK))
    {
      assert Traverse([MARK] + base, p) == Traverse(base, p.(mark := TUNNELING_MARK));
    }
  }

  // ---------- any chain to begin with ----------

  /** An accept rule for the vlan interface stands above every mark rule. */
  ghost predicate Shielded(c: seq<Rule>, vlan: nat) {
    forall i :: 0 <= i < |c| && c[i] == MARK ==> exists j :: 0 <= j < i && c[j] == AcceptRule(vlan)
  }

  /** A run that succeeds puts accept above mark exactly if the accept rule was not there before, or
      the mark rule was and accept already stood above it. */
  lemma ShieldedIff(c: seq<Rule>, vlan: nat)
    ensures Shielded(Installed(c, vlan), vlan) <==> AcceptRule(vlan) !in c || (MARK in c && Shielded(c, vlan))
  {
    var d := Installed(c, vlan);
    if AcceptRule(vlan) !in c {
      assert AcceptRule(vlan) !in Inserted(c, MARK);
      assert d[0] == AcceptRule(vlan);
      assert forall i :: 0 <= i < |d| && d[i] == MARK ==> 0 <= 0 < i && d[0] == AcceptRule(vlan);
    } else if MARK !in c {
      assert d == [MARK] + c && d[0] == MARK;
    } else {
      assert d == c;
    }
  }
}
