/** `eval_event` of asg-policy/src/rules.rs: which rule fires on which event. */
module Rules {
  import opened Options
  import opened Events
  import opened Paths
  import opened Network
  import Glob
  import GlobLaws

  datatype Severity = Low | Medium | High | Critical

  /** A violation without its message: the rule, its severity and the patterns that matched. */
  datatype Violation = Violation(ruleId: string, severity: Severity, matched: seq<string>)

  const PROC_DENIED := "PROC_DENIED"
  const SECRET_ACCESS := "SECRET_ACCESS"
  const NET_DENIED := "NET_DENIED"
  const NET_WARN := "NET_WARN"
  const CAP_ESCALATION := "CAP_ESCALATION"

  function EvalEvent(event: Event, rules: RuleSet): seq<Violation> {
    match event
    case ProcExec(_, _, _, _, comm, _, _, _) => EvalProcExec(comm, rules)
    case FileOpen(_, _, _, path, _, _, _) => EvalFileOpen(path, rules)
    case NetConnect(_, _, _, daddr, _, _, _) => EvalNetConnect(daddr, rules)
    case CapEscalate(_, _, _, _, _) => [Violation(CAP_ESCALATION, High, [])]
  }

  function EvalProcExec(comm: string, rules: RuleSet): seq<Violation> {
    var base := Lower(Basename(comm));
    if exists d | d in rules.deniedProcesses :: Lower(d) == base
    then [Violation(PROC_DENIED, Critical, [])]
    else []
  }

  /** The globs that match `path`, in list order. */
  function MatchingGlobs(globs: seq<string>, path: string): seq<string> {
    if globs == [] then []
    else (if Glob.Matches(globs[0], path) then [globs[0]] else []) + MatchingGlobs(globs[1..], path)
  }

  function EvalFileOpen(path: string, rules: RuleSet): seq<Violation> {
    var matched := MatchingGlobs(rules.secretPathGlobs, Normalized(path));
    if matched == [] then [] else [Violation(SECRET_ACCESS, Critical, matched)]
  }

  function FirstHost(hosts: seq<string>, daddr: string): Option<string> {
    if hosts == [] then None
    else if DestinationMatches(hosts[0], daddr) then Some(hosts[0])
    else FirstHost(hosts[1..], daddr)
  }

  function EvalNetConnect(daddr: string, rules: RuleSet): seq<Violation> {
    match FirstHost(rules.deniedHosts, daddr)
    case Some(host) => [Violation(NET_DENIED, Critical, [host])]
    case None =>
      match FirstHost(rules.warnHosts, daddr)
      case Some(host) => [Violation(NET_WARN, Medium, [host])]
      case None => []
  }

  // ----- Every event raises at most one violation -----

  lemma AtMostOneViolation(event: Event, rules: RuleSet)
    ensures |EvalEvent(event, rules)| <= 1
  {
  }

  // ----- Which violation -----

  /** `ks` are the places of the globs that match, and `matched` holds those globs in the order of the list. */
  ghost predicate AllThatMatch(globs: seq<string>, path: string, matched: seq<string>, ks: seq<nat>) {
    && |ks| == |matched|
    && (forall i, j | 0 <= i < j < |ks| :: ks[i] < ks[j])
    && (forall i | 0 <= i < |ks| :: ks[i] < |globs| && matched[i] == globs[ks[i]])
    && (forall k | 0 <= k < |globs| :: Glob.Matches(globs[k], path) <==> k in ks)
  }

  lemma {:induction false} MatchingGlobsAre(globs: seq<string>, path: string) returns (ks: seq<nat>)
    ensures AllThatMatch(globs, path, MatchingGlobs(globs, path), ks)
    decreases |globs|
  {
    ks := [];
    if globs != [] {
      var n := |globs| - 1;
      ks := MatchingGlobsAre(globs[..n], path);
      MatchingGlobsEnd(globs[..n], globs[n], path);
      assert globs == globs[..n] + [globs[n]];
      if Glob.Matches(globs[n], path) {
        ks := ks + [n];
      }
    }
  }

  lemma {:induction false} MatchingGlobsEnd(globs: seq<string>, g: string, path: string)
    ensures MatchingGlobs(globs + [g], path) ==
            MatchingGlobs(globs, path) + (if Glob.Matches(g, path) then [g] else [])
  {
    hide Glob.Matches;
    if globs != [] {
      MatchingGlobsEnd(globs[1..], g, path);
      assert (globs + [g])[1..] == globs[1..] + [g];
    }
  }

  ghost predicate IsFirst(hosts: seq<string>, daddr: string, i: nat) {
    i < |hosts| && DestinationMatches(hosts[i], daddr) && forall j | 0 <= j < i :: !DestinationMatches(hosts[j], daddr)
  }

  /** The first host of the list that matches, or no host matches. */
  lemma {:induction false} FirstHostIs(hosts: seq<string>, daddr: string)
    ensures match FirstHost(hosts, daddr)
            case Some(h) => exists i: nat :: IsFirst(hosts, daddr, i) && hosts[i] == h
            case None => forall h | h in hosts :: !DestinationMatches(h, daddr)
  {
    hide DestinationMatches;
    if hosts != [] {
      if DestinationMatches(hosts[0], daddr) {
        assert IsFirst(hosts, daddr, 0);
      } else {
        FirstHostIs(hosts[1..], daddr);
        if FirstHost(hosts, daddr).Some? {
          var i: nat :| IsFirst(hosts[1..], daddr, i) && hosts[1..][i] == FirstHost(hosts, daddr).value;
          assert forall j | 0 < j <= i :: hosts[j] == hosts[1..][j - 1];
          assert IsFirst(hosts, daddr, i + 1);
        }
      }
    }
  }

  /** Raising capabilities is always reported. */
  lemma CapEscalationAlways(event: Event, rules: RuleSet)
    requires event.CapEscalate?
    ensures EvalEvent(event, rules) == [Violation("CAP_ESCALATION", High, [])]
  {
  }

  /** A secret is reported exactly when some glob matches the normalised path, and with all such globs in the order
      of the list. */
  lemma SecretAccessExactly(event: Event, rules: RuleSet)
    requires event.FileOpen?
    ensures EvalEvent(event, rules) == [] <==>
            forall g | g in rules.secretPathGlobs :: !Glob.Matches(g, Normalized(event.path))
    ensures EvalEvent(event, rules) != [] ==>
              exists matched, ks :: EvalEvent(event, rules) == [Violation("SECRET_ACCESS", Critical, matched)] &&
                AllThatMatch(rules.secretPathGlobs, Normalized(event.path), matched, ks)
  {
    hide Glob.Matches, Normalized;
    var globs, path := rules.secretPathGlobs, Normalized(event.path);
    var matched := MatchingGlobs(globs, path);
    var ks := MatchingGlobsAre(globs, path);
    if matched == [] {
      forall g | g in globs ensures !Glob.Matches(g, path) {
        var k :| 0 <= k < |globs| && globs[k] == g;
        assert k !in ks;
      }
    } else {
      assert ks[0] in ks && Glob.Matches(globs[ks[0]], path);
    }
  }

  /** The verdict on a Windows-shaped path does not depend on slashes or letter case;
      on any other path it does not depend on slashes. */
  lemma SecretVerdictIgnoresSpelling(event: Event, q: string, rules: RuleSet)
    requires event.FileOpen?
    requires SameUpToSlashes(event.path, q) || (SameUpToCase(event.path, q) && IsWindows(Stripped(event.path)))
    ensures EvalEvent(event.(path := q), rules) == EvalEvent(event, rules)
  {
    if SameUpToSlashes(event.path, q) {
      SlashDirectionIgnored(event.path, q);
    } else {
      WindowsCaseIgnored(event.path, q);
    }
  }

  /** A denied host is reported as denied whatever the warn list holds; a warning needs a warn match
      and no denied match. Either names the first host of its list that matches. */
  lemma NetVerdictExactly(event: Event, rules: RuleSet)
    requires event.NetConnect?
    ensures var denied := exists h | h in rules.deniedHosts :: DestinationMatches(h, event.daddr);
            var warned := exists h | h in rules.warnHosts :: DestinationMatches(h, event.daddr);
            var vs := EvalEvent(event, rules);
            if denied then exists i: nat :: IsFirst(rules.deniedHosts, event.daddr, i) &&
                                       vs == [Violation("NET_DENIED", Critical, [rules.deniedHosts[i]])]
            else if warned then exists i: nat :: IsFirst(rules.warnHosts, event.daddr, i) &&
                                            vs == [Violation("NET_WARN", Medium, [rules.warnHosts[i]])]
            else vs == []
  {
    hide DestinationMatches;
    FirstHostIs(rules.deniedHosts, event.daddr);
    FirstHostIs(rules.warnHosts, event.daddr);
  }

  /** A process is denied exactly when the last component of its name is on the list, letter case aside. */
  lemma ProcDeniedExactly(event: Event, rules: RuleSet)
    requires event.ProcExec?
    ensures EvalEvent(event, rules) == [Violation("PROC_DENIED", Critical, [])] <==>
            exists dir, base, tail, d :: event.comm == dir + base + tail && LastComponent(dir, base, tail) &&
                                         d in rules.deniedProcesses && SameLetters(d, base)
    ensures EvalEvent(event, rules) == [] || EvalEvent(event, rules) == [Violation("PROC_DENIED", Critical, [])]
  {
    hide Lower, Basename, LastComponent, SameLetters;
    var b := Basename(event.comm);
    BasenameIsLastComponent(event.comm, b);
    if d :| d in rules.deniedProcesses && Lower(d) == Lower(b) {
      LowerIsSameLetters(d, b);
      var dir, tail :| event.comm == dir + b + tail && LastComponent(dir, b, tail);
    }
    if dir, base, tail, d :| event.comm == dir + base + tail && LastComponent(dir, base, tail) &&
                             d in rules.deniedProcesses && SameLetters(d, base) {
      BasenameIsLastComponent(event.comm, base);
      LowerIsSameLetters(d, base);
    }
  }

  // ----- Evidence the probe could not read -----

  lemma NoAddressInEmptyText()
    ensures ReadIp("") == None
  {
    assert Paths.Lower("") == "";
    assert Glob.Split("", '.') == [""] && Glob.Split("", ':') == [""];
    assert FindDoubleColon("") == None;
    assert ReadGroups([""], true) == None;
  }

  lemma EmptyDestination(pattern: string)
    ensures DestinationMatches(pattern, "") <==> GlobLaws.AcceptsEmpty(Glob.Split(pattern, '/'))
  {
    NoAddressInEmptyText();
    GlobLaws.EmptyTextMatches(pattern);
  }

  /** The patterns an event's evidence is held against. */
  function PatternsFor(event: Event, rules: RuleSet): seq<string> {
    if event.FileOpen? then rules.secretPathGlobs else rules.deniedHosts + rules.warnHosts
  }

  /** The documentation promises that the empty path and the empty destination raise no violation.
      They raise none exactly when no listed pattern consists of stars alone (with at most one segment
      that is not `**`). */
  lemma EmptyEvidenceIsInertExactly(event: Event, rules: RuleSet)
    requires (event.FileOpen? && event.path == "") || (event.NetConnect? && event.daddr == "")
    ensures EvalEvent(event, rules) == [] <==>
            forall p | p in PatternsFor(event, rules) :: !GlobLaws.AcceptsEmpty(Glob.Split(p, '/'))
  {
    if event.FileOpen? {
      assert Stripped("") == "";
      SecretAccessExactly(event, rules);
      forall g | g in rules.secretPathGlobs
        ensures Glob.Matches(g, "") <==> GlobLaws.AcceptsEmpty(Glob.Split(g, '/'))
      {
        GlobLaws.EmptyTextMatches(g);
      }
    } else {
      EmptyDestinationVerdict(event, rules);
    }
  }

  lemma EmptyDestinationVerdict(event: Event, rules: RuleSet)
    requires event.NetConnect? && event.daddr == ""
    ensures EvalEvent(event, rules) == [] <==>
            forall h | h in rules.deniedHosts + rules.warnHosts :: !GlobLaws.AcceptsEmpty(Glob.Split(h, '/'))
  {
    hide DestinationMatches, GlobLaws.AcceptsEmpty, Glob.Split;
    NetVerdictExactly(event, rules);
    var all := rules.deniedHosts + rules.warnHosts;
    forall h ensures DestinationMatches(h, "") <==> GlobLaws.AcceptsEmpty(Glob.Split(h, '/')) {
      EmptyDestination(h);
    }
    assert forall h :: h in all <==> h in rules.deniedHosts || h in rules.warnHosts;
    assert EvalEvent(event, rules) == [] <==> forall h | h in all :: !DestinationMatches(h, "");
  }

  /** A rule set under which an unread path is reported as a secret. */
  lemma EmptyEvidenceCanFire()
    ensures var rules := RuleSet(["**"], [], [], [], 1);
            EvalEvent(FileOpen(1, 2, "cat", "", 0, 3, false), rules) != []
  {
    var rules := RuleSet(["**"], [], [], [], 1);
    EmptyEvidenceIsInertExactly(FileOpen(1, 2, "cat", "", 0, 3, false), rules);
    Glob.SplitOneSegment("**", '/');
    assert "**" in rules.secretPathGlobs;
  }
}
