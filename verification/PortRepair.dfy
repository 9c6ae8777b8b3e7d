/** Moving a taken management port: one argument changes, and record, forward and arguments stay in step. */
module PortRepair {
  import opened Texts
  import opened Ports
  import opened Collections
  import opened Decimals

  /** A forward of the recorded node. */
  datatype Rule = Rule(bind: string, host: Port, guest: Port)

  datatype Node = Node(name: string, running: bool, sshPort: Port, forwards: seq<Rule>, args: seq<string>)

  function RuleText(port: Port): string
  {
    "hostfwd=tcp:127.0.0.1:" + Render(port) + "-:22"
  }

  /** The argument at i is the management network device. */
  predicate Management(args: seq<string>, i: nat)
  {
    0 < i < |args| && args[i - 1] == "-netdev" && HasPrefix(args[i], "user,id=mgmt,")
  }

  // ---------------------------------------------------------------- one argument

  function Replaced(options: seq<string>, old': string, new': string): seq<string>
  {
    seq(|options|, i requires 0 <= i < |options| => if options[i] == old' then new' else options[i])
  }

  function Rewritten(arg: string, old': string, new': string): string
  {
    Join(Replaced(Split(arg, ','), old', new'), ",")
  }

  function Count(options: seq<string>, option: string): nat
  {
    multiset(options)[option]
  }

  lemma {:induction false} ReplacedCounts(options: seq<string>, old': string, new': string, option: string)
    requires old' != new'
    ensures Count(Replaced(options, old', new'), option) ==
            if option == new' then Count(options, new') + Count(options, old')
            else if option == old' then 0 else Count(options, option)
  {
    if options != [] {
      var n := |options| - 1;
      var front := options[..n];
      ReplacedCounts(front, old', new', option);
      assert options == front + [options[n]];
      assert Replaced(options, old', new') == Replaced(front, old', new') + [if options[n] == old' then new' else options[n]];
    }
  }

  /** Rewriting an argument rewrites its options. */
  lemma RewrittenSplits(arg: string, old': string, new': string)
    requires ',' !in new'
    ensures Split(Rewritten(arg, old', new'), ',') == Replaced(Split(arg, ','), old', new')
  {
    SplitPartsFree(arg, ',');
    SplitJoin(Replaced(Split(arg, ','), old', new'), ',');
  }

  lemma PrefixGivesOptions(arg: string, first: string, second: string)
    requires ',' !in first && ',' !in second && HasPrefix(arg, first + [','] + (second + [',']))
    ensures var options := Split(arg, ','); |options| >= 3 && options[0] == first && options[1] == second
  {
    var rest := arg[|first| + |second| + 2..];
    assert arg == first + [','] + (second + [','] + rest);
    SplitAfter(first, second + [','] + rest, ',');
    SplitAfter(second, rest, ',');
  }

  lemma OptionsGivePrefix(arg: string, first: string, second: string)
    requires var options := Split(arg, ','); |options| >= 3 && options[0] == first && options[1] == second
    ensures HasPrefix(arg, first + [','] + (second + [',']))
  {
    var options := Split(arg, ',');
    JoinSplit(arg, ',');
    assert options[1..][1..] == options[2..];
    var rest := Join(options[2..], ",");
    assert Join(options[1..], ",") == second + [','] + rest;
    assert arg == first + [','] + (second + [','] + rest);
    assert arg == (first + [','] + (second + [','])) + rest;
  }

  lemma PrefixIsOptions(arg: string)
    ensures HasPrefix(arg, "user,id=mgmt,") <==>
            var options := Split(arg, ','); |options| >= 3 && options[0] == "user" && options[1] == "id=mgmt"
  {
    assert "user,id=mgmt," == "user" + [','] + ("id=mgmt" + [',']);
    if HasPrefix(arg, "user,id=mgmt,") {
      PrefixGivesOptions(arg, "user", "id=mgmt");
    }
    var options := Split(arg, ',');
    if |options| >= 3 && options[0] == "user" && options[1] == "id=mgmt" {
      OptionsGivePrefix(arg, "user", "id=mgmt");
    }
  }

  /** A rewritten management argument still is one: its first two options are no forwarding rules. */
  lemma RewrittenStaysManagement(arg: string, old': string, new': string)
    requires ',' !in new' && old' != "user" && old' != "id=mgmt" && HasPrefix(arg, "user,id=mgmt,")
    ensures HasPrefix(Rewritten(arg, old', new'), "user,id=mgmt,")
  {
    RewrittenSplits(arg, old', new');
    PrefixIsOptions(arg);
    PrefixIsOptions(Rewritten(arg, old', new'));
  }

  // ---------------------------------------------------------------- all arguments

  function OccursAt(args: seq<string>, option: string, i: nat): nat
  {
    if Management(args, i) then Count(Split(args[i], ','), option) else 0
  }

  /** How often an option occurs in the management devices among the first n arguments. */
  function Occurrences(args: seq<string>, option: string, n: nat): nat
    requires n <= |args|
  {
    if n == 0 then 0 else Occurrences(args, option, n - 1) + OccursAt(args, option, n - 1)
  }

  function RewrittenArgs(args: seq<string>, old': string, new': string): seq<string>
  {
    seq(|args|, i requires 0 <= i < |args| => if Management(args, i) then Rewritten(args[i], old', new') else args[i])
  }

  lemma ManagementStays(args: seq<string>, old': string, new': string, i: nat)
    requires ',' !in new' && old' != "user" && old' != "id=mgmt"
    ensures Management(RewrittenArgs(args, old', new'), i) <==> Management(args, i)
  {
    if 0 < i < |args| {
      StillManagement(args, old', new', i);
      if Management(args, i) {
        RewrittenStaysManagement(args[i], old', new');
      }
    }
  }

  lemma {:induction false} RewrittenOccurrences(args: seq<string>, old': string, new': string, option: string, n: nat)
    requires n <= |args| && old' != new' && ',' !in new' && old' != "user" && old' != "id=mgmt"
    ensures Occurrences(RewrittenArgs(args, old', new'), option, n) ==
            if option == new' then Occurrences(args, new', n) + Occurrences(args, old', n)
            else if option == old' then 0 else Occurrences(args, option, n)
  {
    if n > 0 {
      RewrittenOccurrences(args, old', new', option, n - 1);
      ManagementStays(args, old', new', n - 1);
      if Management(args, n - 1) {
        RewrittenSplits(args[n - 1], old', new');
        ReplacedCounts(Split(args[n - 1], ','), old', new', option);
      }
    }
  }

  lemma {:induction false} NoOccurrence(args: seq<string>, option: string, n: nat, i: nat)
    requires i < n <= |args| && Occurrences(args, option, n) == 0
    ensures OccursAt(args, option, i) == 0
  {
    if i < n - 1 {
      NoOccurrence(args, option, n - 1, i);
    }
  }

  lemma {:induction false} OneOccurrence(args: seq<string>, option: string, n: nat) returns (i: nat)
    requires n <= |args| && Occurrences(args, option, n) == 1
    ensures i < n && OccursAt(args, option, i) == 1
    ensures forall k: nat :: k < n && k != i ==> OccursAt(args, option, k) == 0
  {
    if OccursAt(args, option, n - 1) == 1 {
      i := n - 1;
      forall k: nat | k < n - 1
        ensures OccursAt(args, option, k) == 0
      {
        NoOccurrence(args, option, n - 1, k);
      }
    } else {
      i := OneOccurrence(args, option, n - 1);
    }
  }

  lemma UntouchedArgument(arg: string, old': string, new': string)
    requires old' !in Split(arg, ',')
    ensures Rewritten(arg, old', new') == arg
  {
    assert Replaced(Split(arg, ','), old', new') == Split(arg, ',');
    JoinSplit(arg, ',');
  }

  /** With a single occurrence, exactly one argument changes, and in it exactly one option. */
  lemma OneOptionChanges(args: seq<string>, old': string, new': string) returns (i: nat, o: nat)
    requires Occurrences(args, old', |args|) == 1
    ensures i < |args| && Management(args, i)
    ensures var options := Split(args[i], ',');
            && o < |options| && options[o] == old'
            && RewrittenArgs(args, old', new') == args[i := Join(options[o := new'], ",")]
  {
    i := OneOccurrence(args, old', |args|);
    var options := Split(args[i], ',');
    assert old' in options;
    o :| 0 <= o < |options| && options[o] == old';
    assert Replaced(options, old', new') == options[o := new'] by {
      forall k | 0 <= k < |options| && k != o
        ensures options[k] != old'
      {
        SingleCount(options, old', o, k);
      }
    }
    forall k | 0 <= k < |args| && k != i
      ensures RewrittenArgs(args, old', new')[k] == args[k]
    {
      if Management(args, k) {
        assert OccursAt(args, old', k) == 0;
        assert Count(Split(args[k], ','), old') == 0;
        UntouchedArgument(args[k], old', new');
      }
    }
  }

  lemma SingleCount<T>(items: seq<T>, item: T, i: nat, k: nat)
    requires i < |items| && k < |items| && i != k && items[i] == item && multiset(items)[item] == 1
    ensures items[k] != item
  {
    var a, b := if i < k then i else k, if i < k then k else i;
    assert items == items[..a] + [items[a]] + items[a + 1..b] + [items[b]] + items[b + 1..];
  }

  // ---------------------------------------------------------------- the repair

  /** The management forward is the first one, and everything names the same port, once. */
  predicate Aligned(node: Node)
  {
    && node.forwards != [] && node.forwards[0] == Rule(LOOPBACK, node.sshPort, 22)
    && Occurrences(node.args, RuleText(node.sshPort), |node.args|) == 1
  }

  /** Every management rule in the arguments belongs to a forward of the node. */
  ghost predicate RulesRecorded(node: Node)
  {
    forall port: Port :: Occurrences(node.args, RuleText(port), |node.args|) > 0 ==> port in NodePorts(node)
  }

  function NodePorts(node: Node): seq<Port>
  {
    seq(|node.forwards|, i requires 0 <= i < |node.forwards| => node.forwards[i].host)
  }

  /** Where the candidates of a port start: the family of ports that differ by ten thousands. */
  function Preferred(port: Port): Port
  {
    if port % 10000 == 0 then 10000 else port % 10000
  }

  function Moved(node: Node, port: Port): Node
    requires node.forwards != []
  {
    node.(args := RewrittenArgs(node.args, RuleText(node.sshPort), RuleText(port)),
          forwards := node.forwards[0 := node.forwards[0].(host := port)], sshPort := port)
  }

  datatype Repair = Unchanged | Repaired(node: Node, reserved: set<Port>) | Failed

  method RepairManagementPort(node: Node, reserved: set<Port>, available: Probe) returns (result: Repair)
    ensures result.Unchanged? <==> node.running || available(LOOPBACK, node.sshPort)
    ensures result.Repaired? <==>
              && !node.running && !available(LOOPBACK, node.sshPort)
              && node.forwards != [] && node.forwards[0] == Rule(LOOPBACK, node.sshPort, 22)
              && (exists port: Port :: IsCandidate(Preferred(node.sshPort), port) && port !in reserved && available(LOOPBACK, port))
              && Occurrences(node.args, RuleText(node.sshPort), |node.args|) == 1
    ensures result.Repaired? ==>
              && node.forwards != [] && node.forwards[0] == Rule(LOOPBACK, node.sshPort, 22)
              && var port := result.node.sshPort;
              && IsCandidate(Preferred(node.sshPort), port) && port !in reserved && available(LOOPBACK, port)
              && Occurrences(node.args, RuleText(node.sshPort), |node.args|) == 1
              && result.node == Moved(node, port) && result.reserved == reserved + {port}
  {
    if node.running || available(LOOPBACK, node.sshPort) {
      return Unchanged;
    }
    if |node.forwards| == 0 || node.forwards[0] != Rule(LOOPBACK, node.sshPort, 22) {
      return Failed;
    }
    var chosen := Choose(Preferred(node.sshPort), (port: Port) => port !in reserved && available(LOOPBACK, port));
    if chosen.None? {
      return Failed;
    }
    var port := chosen.value;
    var old', new' := RuleText(node.sshPort), RuleText(port);
    RuleTextFacts(node.sshPort);
    RuleTextFacts(port);
    var args, replacements := RewriteArgs(node.args, old', new');
    if replacements != 1 {
      return Failed;
    }
    return Repaired(node.(args := args, forwards := node.forwards[0 := node.forwards[0].(host := port)], sshPort := port),
                    reserved + {port});
  }

  method RewriteOptions(arg: string, old': string, new': string) returns (text: string, replaced: nat)
    ensures text == Rewritten(arg, old', new') && replaced == Count(Split(arg, ','), old')
  {
    var options := Split(arg, ',');
    var changed: seq<string> := [];
    replaced := 0;
    for o := 0 to |options|
      invariant changed == Replaced(options[..o], old', new') && replaced == Count(options[..o], old')
    {
      assert options[..o + 1] == options[..o] + [options[o]];
      if options[o] == old' {
        changed := changed + [new'];
        replaced := replaced + 1;
      } else {
        changed := changed + [options[o]];
      }
    }
    assert options[..|options|] == options;
    return Join(changed, ","), replaced;
  }

  method RewriteArgs(args: seq<string>, old': string, new': string) returns (rewritten: seq<string>, replacements: nat)
    requires ',' !in new' && old' != "user" && old' != "id=mgmt"
    ensures rewritten == RewrittenArgs(args, old', new') && replacements == Occurrences(args, old', |args|)
  {
    rewritten, replacements := args, 0;
    ghost var goal := RewrittenArgs(args, old', new');
    for i := 0 to |args|
      invariant |rewritten| == |args|
      invariant forall k :: 0 <= k < i ==> rewritten[k] == goal[k]
      invariant forall k :: i <= k < |args| ==> rewritten[k] == args[k]
      invariant replacements == Occurrences(args, old', i)
    {
      if i > 0 {
        StillManagement(args, old', new', i);
      }
      assert goal[i] == if Management(args, i) then Rewritten(args[i], old', new') else args[i];
      if i > 0 && rewritten[i - 1] == "-netdev" && HasPrefix(rewritten[i], "user,id=mgmt,") {
        var text, replaced := RewriteOptions(rewritten[i], old', new');
        rewritten := rewritten[i := text];
        replacements := replacements + replaced;
      }
    }
  }

  /** Reading the half-rewritten list finds the same management arguments as reading the original one. */
  lemma StillManagement(args: seq<string>, old': string, new': string, i: nat)
    requires 0 < i < |args| && ',' !in new' && old' != "user" && old' != "id=mgmt"
    ensures RewrittenArgs(args, old', new')[i - 1] == "-netdev" <==> args[i - 1] == "-netdev"
  {
    if Management(args, i - 1) {
      RewrittenStaysManagement(args[i - 1], old', new');
      assert args[i - 1][0] == 'u' && RewrittenArgs(args, old', new')[i - 1][0] == 'u' && "-netdev"[0] == '-';
    }
  }

  lemma RuleTextFacts(port: Port)
    ensures ',' !in RuleText(port) && RuleText(port) != "user" && RuleText(port) != "id=mgmt"
  {
    var digits := Render(port);
    assert Digits(digits);
    assert RuleText(port)[0] == 'h';
    assert forall i :: 0 <= i < |digits| ==> Digit(digits[i]);
  }

  lemma RuleTextsDiffer(first: Port, second: Port)
    requires RuleText(first) == RuleText(second)
    ensures first == second
  {
    var one, two := Render(first), Render(second);
    var prefix, suffix := "hostfwd=tcp:127.0.0.1:", "-:22";
    assert RuleText(first)[|prefix|..|RuleText(first)| - |suffix|] == one;
    assert RuleText(second)[|prefix|..|RuleText(second)| - |suffix|] == two;
    RenderRoundTrip(first);
    RenderRoundTrip(second);
  }

  /** A repair keeps the record, the first forward and the arguments on one port; only that one option moves. */
  lemma RepairKeepsAligned(node: Node, port: Port)
    requires Aligned(node) && RulesRecorded(node) && port !in NodePorts(node)
    ensures Aligned(Moved(node, port)) && RulesRecorded(Moved(node, port))
    ensures NodePorts(Moved(node, port)) == NodePorts(node)[0 := port]
  {
    var old', new' := RuleText(node.sshPort), RuleText(port);
    var moved := Moved(node, port);
    RuleTextFacts(node.sshPort);
    RuleTextFacts(port);
    assert node.sshPort == NodePorts(node)[0];
    if old' == new' {
      RuleTextsDiffer(node.sshPort, port);
    }
    assert NodePorts(moved) == NodePorts(node)[0 := port];
    assert Aligned(moved) by {
      RewrittenOccurrences(node.args, old', new', new', |node.args|);
    }
    forall other: Port | Occurrences(moved.args, RuleText(other), |moved.args|) > 0
      ensures other in NodePorts(moved)
    {
      RewrittenOccurrences(node.args, old', new', RuleText(other), |node.args|);
      if RuleText(other) == new' {
        RuleTextsDiffer(other, port);
        assert NodePorts(moved)[0] == port;
      } else {
        var i :| 0 <= i < |NodePorts(node)| && NodePorts(node)[i] == other;
        assert i != 0;
        assert NodePorts(moved)[i] == other;
      }
    }
  }

  // ---------------------------------------------------------------- any number of repairs

  function AllPorts(nodes: seq<Node>): set<Port>
  {
    set i, port | 0 <= i < |nodes| && port in NodePorts(nodes[i]) :: port
  }

  /** All host ports of all nodes are different, and every node is aligned. */
  ghost predicate Consistent(nodes: seq<Node>)
  {
    && (forall i :: 0 <= i < |nodes| ==> Aligned(nodes[i]) && RulesRecorded(nodes[i]) && Distinct(NodePorts(nodes[i])))
    && forall i, j, port :: 0 <= i < j < |nodes| && port in NodePorts(nodes[i]) ==> port !in NodePorts(nodes[j])
  }

  /** Repairing any one node keeps all ports different and every node aligned. */
  lemma RepairKeepsConsistent(nodes: seq<Node>, i: nat, port: Port)
    requires Consistent(nodes) && i < |nodes| && port !in AllPorts(nodes)
    ensures Consistent(nodes[i := Moved(nodes[i], port)])
    ensures AllPorts(nodes[i := Moved(nodes[i], port)]) <= AllPorts(nodes) + {port}
  {
    var after := nodes[i := Moved(nodes[i], port)];
    RepairKeepsAligned(nodes[i], port);
    forall p | p in NodePorts(after[i])
      ensures p == port || p in NodePorts(nodes[i])
    {
      var k :| 0 <= k < |NodePorts(after[i])| && NodePorts(after[i])[k] == p;
    }
    assert Distinct(NodePorts(after[i])) by {
      forall k | 0 < k < |NodePorts(nodes[i])|
        ensures NodePorts(nodes[i])[k] != port
      {
        assert NodePorts(nodes[i])[k] in NodePorts(nodes[i]);
      }
    }
  }

  /** Starting nodes one after another, each with its management port repaired if it was taken: whatever happens to be
      busy each time, ports stay different and records stay aligned. The reserved ports are collected once and grow, so
      that a port which some node had at the start is never given to another. */
  method RepairAll(nodes: seq<Node>, order: seq<nat>, available: seq<Probe>) returns (after: seq<Node>)
    requires Consistent(nodes) && |available| == |order| && forall k :: 0 <= k < |order| ==> order[k] < |nodes|
    ensures Consistent(after) && |after| == |nodes|
    ensures forall i :: 0 <= i < |nodes| ==> after[i].sshPort == nodes[i].sshPort || after[i].sshPort !in AllPorts(nodes)
  {
    after := nodes;
    var reserved := AllPorts(nodes);
    for k := 0 to |order|
      invariant Consistent(after) && |after| == |nodes| && AllPorts(nodes) <= reserved && AllPorts(after) <= reserved
      invariant forall i :: 0 <= i < |nodes| ==> after[i].sshPort == nodes[i].sshPort || after[i].sshPort !in AllPorts(nodes)
    {
      var result := RepairManagementPort(after[order[k]], reserved, available[k]);
      if result.Repaired? {
        RepairKeepsConsistent(after, order[k], result.node.sshPort);
        after := after[order[k] := result.node];
        reserved := result.reserved;
      }
    }
  }
}
