/**
 * Filter derivation (`signalOptions`): turn the `--path` and `--name`
 * expressions into the ordered match rules registered with the bus.
 */
module Filter {
  import opened Strings
  import opened Bus

  /** The path suffix that asks for a whole namespace. */
  const Wildcard: string := "/*"

  /** The path rule for a path expression: none, a namespace or an exact path. */
  function PathRules(path: string): (r: seq<MatchRule>)
    ensures r == [] <==> path == ""
    ensures |r| <= 1 && forall i :: 0 <= i < |r| ==> r[i].IsPathRule()
  {
    if path == "" then []
    else if HasSuffix(path, Wildcard) then [PathPrefix(TrimSuffix(path, Wildcard))]
    else [ExactPath(path)]
  }

  /**
   * The rules for a name expression: the last `.`-separated section is the
   * member, and the sections before it, joined back with `.`, the interface.
   */
  function NameRules(name: string): (r: seq<MatchRule>)
    ensures r == [] <==> name == ""
    ensures |r| <= 2 && forall i :: 0 <= i < |r| ==> !r[i].IsPathRule()
  {
    if name == "" then []
    else
      var sections := Split(name, '.');
      var n := |sections|;
      [Member(sections[n - 1])] + (if n > 1 then [Interface(Join(sections[..n - 1], "."))] else [])
  }

  /** The rule sequence `signalOptions` returns. */
  function SignalOptions(path: string, name: string): (r: seq<MatchRule>)
    ensures |r| <= 3
    ensures r == [] <==> path == "" && name == ""
  {
    PathRules(path) + NameRules(name)
  }

  /**
   * `signalOptions` itself: starts from an empty slice and appends the path
   * rule, the member rule and the interface rule as they apply.
   */
  method BuildSignalOptions(path: string, name: string) returns (options: seq<MatchRule>)
    ensures options == SignalOptions(path, name)
  {
    options := [];
    if |path| > 0 {
      if HasSuffix(path, Wildcard) {
        options := options + [PathPrefix(TrimSuffix(path, Wildcard))];
      } else {
        options := options + [ExactPath(path)];
      }
    }
    if |name| > 0 {
      var sections := Split(name, '.');
      options := options + [Member(sections[|sections| - 1])];
      if |sections| > 1 {
        options := options + [Interface(Join(sections[0..|sections| - 1], "."))];
      }
    }
  }

  /** Position of a rule kind in the output: path, then member, then interface. */
  function Rank(rule: MatchRule): nat {
    match rule
    case PathPrefix(_) => 0
    case ExactPath(_) => 0
    case Member(_) => 1
    case Interface(_) => 2
  }

  /**
   * A path rule exists exactly when the path is non-empty; a wildcard path (one ending in slash-star)
   * gives the namespace with the suffix removed (the bare wildcard gives the empty
   * namespace), any other path is taken verbatim.
   */
  lemma PathRuleMeaning(path: string)
    ensures PathRules(path) == [] <==> path == ""
    ensures path != "" && HasSuffix(path, Wildcard) ==>
      PathRules(path) == [PathPrefix(path[..|path| - |Wildcard|])] && path[..|path| - |Wildcard|] + Wildcard == path
    ensures path != "" && !HasSuffix(path, Wildcard) ==> PathRules(path) == [ExactPath(path)]
    ensures path == Wildcard ==> PathRules(path) == [PathPrefix("")]
  {
  }

  /**
   * A name without `.` is a bare member. A name with `.` yields the member
   * (which has no `.`) then the interface, and interface + "." + member
   * rebuilds the name, so the member is everything after the last `.`.
   */
  lemma NameRuleMeaning(name: string)
    requires name != ""
    ensures '.' !in name ==> NameRules(name) == [Member(name)]
    ensures '.' in name ==>
      var r := NameRules(name);
      |r| == 2 && r[0].Member? && r[1].Interface? &&
      '.' !in r[0].member && r[1].iface + "." + r[0].member == name
  {
    var sections := Split(name, '.');
    var n := |sections|;
    SplitCount(name, '.');
    if '.' !in name {
      SplitWithoutSep(name, '.');
    } else {
      JoinSplit(name, '.');
      assert sections == sections[..n - 1] + [sections[n - 1]];
      JoinSnoc(sections[..n - 1], sections[n - 1], ".");
    }
  }

  /**
   * Conversely, an interface and a member without `.` are recovered from
   * the name interface + "." + member.
   */
  lemma NameRulesOfQualified(iface: string, member: string)
    requires '.' !in member
    ensures NameRules(iface + "." + member) == [Member(member), Interface(iface)]
  {
    var name := iface + "." + member;
    assert name == iface + ['.'] + member;
    SplitAroundSep(iface, member, '.');
    SplitWithoutSep(member, '.');
    var sections := Split(name, '.');
    assert sections == Split(iface, '.') + [member];
    assert sections[..|sections| - 1] == Split(iface, '.');
    JoinSplit(iface, '.');
  }

  /**
   * The output is path rule, member rule, interface rule, each at most once
   * and in that order; its length counts the rules that apply, and empty
   * expressions give no rules at all.
   */
  lemma SignalOptionsShape(path: string, name: string)
    ensures var r := SignalOptions(path, name);
      |r| == (if path == "" then 0 else 1)
             + (if name == "" then 0 else if '.' in name then 2 else 1) &&
      |r| <= 3 &&
      (forall i, j :: 0 <= i < j < |r| ==> Rank(r[i]) < Rank(r[j])) &&
      (path != "" ==> r[0] == PathRules(path)[0])
    ensures SignalOptions("", "") == []
  {
    if name != "" {
      NameRuleMeaning(name);
    }
  }

  /**
   * A non-empty path contributes exactly one rule, in first place; an empty
   * path contributes none.
   */
  lemma {:induction false} SinglePathRule(path: string, name: string)
    ensures var r := SignalOptions(path, name);
      (path != "" ==> |r| >= 1 && r[0].IsPathRule() &&
                      forall i :: 1 <= i < |r| ==> !r[i].IsPathRule()) &&
      (path == "" ==> forall i :: 0 <= i < |r| ==> !r[i].IsPathRule())
  {
    var r := SignalOptions(path, name);
    SignalOptionsShape(path, name);
    forall i | 0 <= i < |r| && (path != "" ==> 1 <= i)
      ensures !r[i].IsPathRule()
    {
      if path != "" {
        assert Rank(r[0]) < Rank(r[i]);
      } else {
        assert r[i] in NameRules(name);
      }
    }
  }

  /**
   * A non-empty name contributes exactly one member rule, whatever the path.
   */
  lemma SingleMemberRule(path: string, name: string)
    requires name != ""
    ensures var r := SignalOptions(path, name);
      var k := if path == "" then 0 else 1;
      k < |r| && r[k].Member? &&
      forall j :: 0 <= j < |r| && r[j].Member? ==> j == k
  {
    SignalOptionsShape(path, name);
    NameRuleMeaning(name);
  }

  /**
   * For an exact path and a dotted name, the derived filter admits exactly
   * the signals sent from that path whose interface and member, joined with
   * `.`, spell the name.
   */
  lemma FilterAdmits(path: string, name: string, sig: Signal)
    requires path != "" && !HasSuffix(path, Wildcard)
    requires '.' in name
    requires '.' !in sig.member
    ensures Matches(SignalOptions(path, name), sig) <==>
      sig.path == path && sig.iface + "." + sig.member == name
  {
    var r := SignalOptions(path, name);
    NameRuleMeaning(name);
    assert r == [ExactPath(path)] + NameRules(name);
    if sig.path == path && sig.iface + "." + sig.member == name {
      NameRulesOfQualified(sig.iface, sig.member);
    }
    if Matches(r, sig) {
      assert Accepts(r[0], sig) && Accepts(r[1], sig) && Accepts(r[2], sig);
    }
  }

  /** A wildcard path admits the namespace itself and every path below it. */
  lemma WildcardAdmitsDescendants(ns: string, rest: string, sig: Signal)
    requires ns != ""
    requires sig.path == ns || sig.path == ns + "/" + rest
    ensures Matches(SignalOptions(ns + Wildcard, ""), sig)
  {
    var path := ns + Wildcard;
    assert path[..|path| - 2] == ns;
    assert HasSuffix(path, Wildcard);
    var r := SignalOptions(path, "");
    assert r == [PathPrefix(ns)];
    assert sig.path[..|ns|] == ns;
  }
}
