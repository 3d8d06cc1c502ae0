/** The plugin's configuration and its per-token rewrite: options normalisation, the
    exclude check, the filter of applicable rules, first-match lookup, the three target
    forms, preserve tracking, and the in-place walk over the parsed value. */
module BetterUnits {
  import opened Css

  /** `preserve?: boolean | 'before' | 'after'`. */
  datatype Preserve = Flag(on: bool) | Before | After

  /** Everything but `false` keeps the original declaration. */
  predicate Truthy(p: Preserve) {
    p != Flag(false)
  }

  /** An exclude is a regular expression tested on the declaration's full text, or a
      callback given that text, the declaration and its parent rule's selector. The
      regex engine and the callback are foreign and enter as functions. */
  datatype Exclude =
    | Pattern(test: string -> bool)
    | Callback(call: (string, Decl, string) -> bool)

  /** The three rewrite forms of a rule; the transform receives the number literal
      (its float parsing is part of the user's function). */
  datatype Target =
    | ToUnit(unit: string)
    | ToCssVar(name: string)
    | Transform(f: string -> string)

  datatype UnitRule = UnitRule(
    fromUnit: string,
    target: Target,
    preserve: Option<Preserve>,
    exclude: Option<Exclude>)

  /** The plugin's options: a bare rule list, or an object with shared settings. */
  datatype Options =
    | UnitList(units: seq<UnitRule>)
    | Settings(units: seq<UnitRule>, preserve: Option<Preserve>, exclude: Option<Exclude>)

  /** The configuration fixed once when the plugin is created. */
  datatype Engine = Engine(units: seq<UnitRule>, preserve: Preserve, exclude: Option<Exclude>)

  /** Options normalisation: missing options are the empty list, a bare list has no
      global exclude, and the global preserve defaults to `false`. */
  function Normalize(options: Option<Options>): (e: Engine)
    ensures options.None? ==> e == Engine([], Flag(false), None)
    ensures options.Some? ==> e.units == options.value.units
    ensures options.Some? && options.value.UnitList? ==> e.preserve == Flag(false) && e.exclude == None
    ensures options.Some? && options.value.Settings? ==>
              e.exclude == options.value.exclude
              && (options.value.preserve.None? ==> e.preserve == Flag(false))
              && (options.value.preserve.Some? ==> e.preserve == options.value.preserve.value)
  {
    match options
    case None => Engine([], Flag(false), None)
    case Some(UnitList(units)) => Engine(units, Flag(false), None)
    case Some(Settings(units, preserve, exclude)) => Engine(units, preserve.GetOr(Flag(false)), exclude)
  }

  /** A bare list of rules configures the plugin exactly like an object that sets only `units`. */
  lemma BareListIsDefaultSettings(units: seq<UnitRule>)
    ensures Normalize(Some(UnitList(units))) == Normalize(Some(Settings(units, None, None)))
  {
  }

  /** The units the detection pattern is built from, in configured order. */
  function FromUnits(units: seq<UnitRule>): seq<string>
  {
    seq(|units|, k requires 0 <= k < |units| => units[k].fromUnit)
  }

  /** `checkExclude`: an absent exclude never excludes. */
  function CheckExclude(exclude: Option<Exclude>, text: string, d: Decl, parent: string): (r: bool)
    ensures exclude.None? ==> !r
    ensures exclude.Some? && exclude.value.Pattern? ==> (r <==> exclude.value.test(text))
    ensures exclude.Some? && exclude.value.Callback? ==> (r <==> exclude.value.call(text, d, parent))
  {
    match exclude
    case None => false
    case Some(Pattern(test)) => test(text)
    case Some(Callback(call)) => call(text, d, parent)
  }

  /** The rules whose own exclude does not match, in configured order. */
  function Applicable(units: seq<UnitRule>, text: string, d: Decl, parent: string): (r: seq<UnitRule>)
    ensures |r| <= |units|
    ensures forall k :: 0 <= k < |r| ==> !CheckExclude(r[k].exclude, text, d, parent)
    ensures (forall k :: 0 <= k < |units| ==> CheckExclude(units[k].exclude, text, d, parent)) ==> r == []
    ensures (forall k :: 0 <= k < |units| ==> !CheckExclude(units[k].exclude, text, d, parent)) ==> r == units
  {
    if units == [] then []
    else
      var rest := Applicable(units[1..], text, d, parent);
      if CheckExclude(units[0].exclude, text, d, parent) then rest else [units[0]] + rest
  }

  /** Every kept rule is a configured one. */
  lemma {:induction false} ApplicableKeepsOnlyConfigured(units: seq<UnitRule>, text: string, d: Decl, parent: string)
    ensures forall k :: 0 <= k < |Applicable(units, text, d, parent)| ==> Applicable(units, text, d, parent)[k] in units
  {
    if units != [] {
      ApplicableKeepsOnlyConfigured(units[1..], text, d, parent);
      var r := Applicable(units, text, d, parent);
      var rest := Applicable(units[1..], text, d, parent);
      forall k | 0 <= k < |r| ensures r[k] in units {
        if CheckExclude(units[0].exclude, text, d, parent) {
          assert r[k] == rest[k];
          InTail(units, rest[k]);
        } else if k > 0 {
          assert r[k] == rest[k - 1];
          InTail(units, rest[k - 1]);
        }
      }
    }
  }

  lemma InTail<T>(s: seq<T>, x: T)
    requires s != [] && x in s[1..]
    ensures x in s
  {
    var i :| 0 <= i < |s[1..]| && s[1..][i] == x;
    assert s[i + 1] == x;
  }

  /** Every configured rule whose exclude does not match is kept. */
  lemma {:induction false} ApplicableKeepsEveryAllowed(units: seq<UnitRule>, text: string, d: Decl, parent: string)
    ensures forall k :: 0 <= k < |units| && !CheckExclude(units[k].exclude, text, d, parent) ==>
              units[k] in Applicable(units, text, d, parent)
  {
    if units != [] {
      ApplicableKeepsEveryAllowed(units[1..], text, d, parent);
      forall k | 0 < k < |units| ensures units[k] == units[1..][k - 1] {
      }
    }
  }

  /** The filter keeps configured order: filtering a list split in two is filtering the
      front, followed by filtering the back. */
  lemma {:induction false} ApplicableAppend(a: seq<UnitRule>, b: seq<UnitRule>, text: string, d: Decl, parent: string)
    ensures Applicable(a + b, text, d, parent) == Applicable(a, text, d, parent) + Applicable(b, text, d, parent)
  {
    if a == [] {
      assert a + b == b;
    } else {
      assert (a + b)[0] == a[0];
      assert (a + b)[1..] == a[1..] + b;
      ApplicableAppend(a[1..], b, text, d, parent);
      var front := Applicable(a[1..], text, d, parent);
      var back := Applicable(b, text, d, parent);
      if !CheckExclude(a[0].exclude, text, d, parent) {
        assert [a[0]] + (front + back) == ([a[0]] + front) + back;
      }
    }
  }

  /** The index of the first rule converting `unit`, if any. */
  function FirstMatch(rules: seq<UnitRule>, unit: string): (r: Option<nat>)
    ensures r.Some? ==> r.value < |rules| && rules[r.value].fromUnit == unit
    ensures r.Some? ==> forall m :: 0 <= m < r.value ==> rules[m].fromUnit != unit
    ensures r.None? <==> forall m :: 0 <= m < |rules| ==> rules[m].fromUnit != unit
  {
    if rules == [] then None
    else if rules[0].fromUnit == unit then Some(0)
    else match FirstMatch(rules[1..], unit)
      case None => None
      case Some(k) => Some(k + 1)
  }

  /** The rule that converts the first non-excluded rule for `unit`, indexed in the
      configured list. */
  function FirstApplicable(units: seq<UnitRule>, text: string, d: Decl, parent: string, unit: string): (r: Option<nat>)
    ensures r.Some? ==> r.value < |units| && units[r.value].fromUnit == unit
                        && !CheckExclude(units[r.value].exclude, text, d, parent)
    ensures r.Some? ==> forall j :: 0 <= j < r.value && units[j].fromUnit == unit ==>
                          CheckExclude(units[j].exclude, text, d, parent)
    ensures r.None? ==> forall j :: 0 <= j < |units| && units[j].fromUnit == unit ==>
                          CheckExclude(units[j].exclude, text, d, parent)
  {
    if units == [] then None
    else if units[0].fromUnit == unit && !CheckExclude(units[0].exclude, text, d, parent) then Some(0)
    else match FirstApplicable(units[1..], text, d, parent, unit)
      case None => None
      case Some(k) => Some(k + 1)
  }

  /** Looking a unit up among the filtered rules picks the first rule of the configured
      list that has that unit and is not excluded; rules excluded for this declaration,
      and later rules with the same unit, are never chosen. */
  lemma {:induction false} FirstMatchOfApplicable(units: seq<UnitRule>, text: string, d: Decl, parent: string, unit: string)
    ensures var rules := Applicable(units, text, d, parent);
            var m := FirstMatch(rules, unit);
            var a := FirstApplicable(units, text, d, parent, unit);
            m.Some? == a.Some? && (m.Some? ==> rules[m.value] == units[a.value])
            && (a.Some? ==> forall j :: 0 <= j < a.value && units[j].fromUnit == unit ==>
                              CheckExclude(units[j].exclude, text, d, parent))
  {
    LookupAgrees(units, text, d, parent, unit);
  }

  /** Lookup among the filtered rules and the reference pick the same rule. */
  ghost predicate Agrees(units: seq<UnitRule>, text: string, d: Decl, parent: string, unit: string) {
    var rules := Applicable(units, text, d, parent);
    var m := FirstMatch(rules, unit);
    var a := FirstApplicable(units, text, d, parent, unit);
    m.Some? == a.Some? && (m.Some? ==> rules[m.value] == units[a.value])
  }

  lemma {:induction false} LookupAgrees(units: seq<UnitRule>, text: string, d: Decl, parent: string, unit: string)
    ensures Agrees(units, text, d, parent, unit)
  {
    if units != [] {
      LookupAgrees(units[1..], text, d, parent, unit);
      if CheckExclude(units[0].exclude, text, d, parent) {
        AgreesExcludedHead(units, text, d, parent, unit);
      } else if units[0].fromUnit == unit {
        assert Applicable(units, text, d, parent)[0] == units[0];
      } else {
        AgreesOtherHead(units, text, d, parent, unit);
      }
    }
  }

  lemma AgreesExcludedHead(units: seq<UnitRule>, text: string, d: Decl, parent: string, unit: string)
    requires units != [] && CheckExclude(units[0].exclude, text, d, parent)
    requires Agrees(units[1..], text, d, parent, unit)
    ensures Agrees(units, text, d, parent, unit)
  {
    var a1 := FirstApplicable(units[1..], text, d, parent, unit);
    assert Applicable(units, text, d, parent) == Applicable(units[1..], text, d, parent);
    if a1.Some? {
      assert units[1..][a1.value] == units[a1.value + 1];
    }
  }

  lemma AgreesOtherHead(units: seq<UnitRule>, text: string, d: Decl, parent: string, unit: string)
    requires units != [] && !CheckExclude(units[0].exclude, text, d, parent) && units[0].fromUnit != unit
    requires Agrees(units[1..], text, d, parent, unit)
    ensures Agrees(units, text, d, parent, unit)
  {
    var rest := Applicable(units[1..], text, d, parent);
    var rules := [units[0]] + rest;
    assert Applicable(units, text, d, parent) == rules;
    assert rules[1..] == rest;
    var m1 := FirstMatch(rest, unit);
    var a1 := FirstApplicable(units[1..], text, d, parent, unit);
    assert FirstMatch(rules, unit) == if m1.Some? then Some(m1.value + 1) else None;
    assert FirstApplicable(units, text, d, parent, unit) == if a1.Some? then Some(a1.value + 1) else None;
    if m1.Some? {
      assert rules[m1.value + 1] == rest[m1.value];
      assert units[1..][a1.value] == units[a1.value + 1];
    }
  }

  /** The `for … break` scan over the applicable rules. */
  method MatchRule(rules: seq<UnitRule>, unit: string) returns (j: Option<nat>)
    ensures j == FirstMatch(rules, unit)
  {
    for k := 0 to |rules|
      invariant forall m :: 0 <= m < k ==> rules[m].fromUnit != unit
    {
      if rules[k].fromUnit == unit {
        return Some(k);
      }
    }
    return None;
  }

  /** A later rule with the same `fromUnit` as an earlier one is never used. */
  lemma ShadowedRuleNeverUsed(rules: seq<UnitRule>, i: nat, k: nat, unit: string)
    requires i < k < |rules| && rules[i].fromUnit == rules[k].fromUnit
    ensures FirstMatch(rules, unit) != Some(k)
  {
  }

  /** The unit is lower-cased before lookup but `fromUnit` is not, so a rule whose
      `fromUnit` holds an upper-case letter never matches any token. */
  lemma UpperCaseRuleNeverUsed(rules: seq<UnitRule>, k: nat, unit: string)
    requires k < |rules|
    requires exists c :: 0 <= c < |rules[k].fromUnit| && IsUpper(rules[k].fromUnit[c])
    ensures FirstMatch(rules, Lower(unit)) != Some(k)
  {
    LowerHasNoUpper(unit);
  }

  /** The rule applied to a node: only a word the splitter accepts, and only when some
      rule converts its lower-cased unit. */
  function MatchedRule(rules: seq<UnitRule>, split: string -> Option<Dimension>, t: Token): (r: Option<UnitRule>)
    ensures r.Some? <==> t.Word? && split(t.text).Some?
                         && exists m :: 0 <= m < |rules| && rules[m].fromUnit == Lower(split(t.text).value.unit)
    ensures r.Some? ==> r.value.fromUnit == Lower(split(t.text).value.unit)
  {
    match t
    case Word(w) =>
      (match split(w)
       case None => None
       case Some(dim) =>
         match FirstMatch(rules, Lower(dim.unit))
         case None => None
         case Some(j) => Some(rules[j]))
    case _ => None
  }

  /** The detection list holds every unit the walk can convert: a node with a matched
      applicable rule has its lower-cased unit among the configured `fromUnit`s. */
  lemma MatchedUnitIsDetected(units: seq<UnitRule>, text: string, d: Decl, parent: string,
                              split: string -> Option<Dimension>, t: Token)
    requires MatchedRule(Applicable(units, text, d, parent), split, t).Some?
    ensures t.Word? && split(t.text).Some?
    ensures Lower(split(t.text).value.unit) in FromUnits(units)
  {
    var rules := Applicable(units, text, d, parent);
    ApplicableKeepsOnlyConfigured(units, text, d, parent);
    var m :| 0 <= m < |rules| && rules[m].fromUnit == Lower(split(t.text).value.unit);
    assert rules[m] in units;
    var j :| 0 <= j < |units| && units[j] == rules[m];
    assert FromUnits(units)[j] == rules[m].fromUnit;
  }

  /** First match wins, end to end: the rule applied to a node is the first rule of the
      configured list that has the node's lower-cased unit and is not excluded. */
  lemma MatchedRuleIsFirstApplicable(units: seq<UnitRule>, text: string, d: Decl, parent: string,
                                     split: string -> Option<Dimension>, t: Token)
    requires MatchedRule(Applicable(units, text, d, parent), split, t).Some?
    ensures t.Word? && split(t.text).Some?
    ensures var a := FirstApplicable(units, text, d, parent, Lower(split(t.text).value.unit));
            a.Some? && MatchedRule(Applicable(units, text, d, parent), split, t) == Some(units[a.value])
  {
    FirstMatchOfApplicable(units, text, d, parent, Lower(split(t.text).value.unit));
  }

  /** The node that replaces a converted word. */
  function Convert(target: Target, number: string): Token {
    match target
    case ToUnit(u) => Word(number + u)
    case ToCssVar(name) => Str("", "calc(" + number + " * var(" + name + "))")
    case Transform(f) => Str("", f(number))
  }

  /** One node after the walk: converted by its matched rule, otherwise unchanged. */
  function RewriteToken(rules: seq<UnitRule>, split: string -> Option<Dimension>, t: Token): (r: Token)
    ensures MatchedRule(rules, split, t).None? ==> r == t
  {
    match MatchedRule(rules, split, t)
    case None => t
    case Some(rule) => Convert(rule.target, split(t.text).value.number)
  }

  function RewriteAll(rules: seq<UnitRule>, split: string -> Option<Dimension>, ts: seq<Token>): seq<Token>
  {
    seq(|ts|, k requires 0 <= k < |ts| => RewriteToken(rules, split, ts[k]))
  }

  /** Each node is rewritten on its own, without regard to its neighbours: rewriting a
      value split in two is rewriting each part. */
  lemma RewriteAllAppend(rules: seq<UnitRule>, split: string -> Option<Dimension>, a: seq<Token>, b: seq<Token>)
    ensures RewriteAll(rules, split, a + b) == RewriteAll(rules, split, a) + RewriteAll(rules, split, b)
  {
    var l := RewriteAll(rules, split, a + b);
    var rr := RewriteAll(rules, split, a) + RewriteAll(rules, split, b);
    assert |l| == |rr|;
    forall k | 0 <= k < |a + b| ensures l[k] == rr[k] {
      if k < |a| {
        assert (a + b)[k] == a[k];
      } else {
        assert (a + b)[k] == b[k - |a|];
      }
    }
  }

  /** Only word nodes can change: every other node, and every word without a matched rule,
      keeps its place in the rewritten value. */
  lemma OnlyMatchedWordsChange(rules: seq<UnitRule>, split: string -> Option<Dimension>, ts: seq<Token>, k: nat)
    requires k < |ts| && RewriteAll(rules, split, ts)[k] != ts[k]
    ensures ts[k].Word? && MatchedRule(rules, split, ts[k]).Some?
  {
  }

  /** Non-word nodes, words the splitter rejects and words whose unit no rule converts
      all pass through; when that holds of every node the value is unchanged. */
  lemma {:induction false} NothingMatchedNothingChanged(rules: seq<UnitRule>, split: string -> Option<Dimension>, ts: seq<Token>)
    requires forall k :: 0 <= k < |ts| ==>
               !ts[k].Word? || split(ts[k].text).None?
               || forall m :: 0 <= m < |rules| ==> rules[m].fromUnit != Lower(split(ts[k].text).value.unit)
    ensures RewriteAll(rules, split, ts) == ts
  {
    forall k | 0 <= k < |ts| ensures RewriteAll(rules, split, ts)[k] == ts[k] {
      assert MatchedRule(rules, split, ts[k]).None?;
    }
  }

  /** A string node with no quote renders its text bare. */
  lemma RenderBare(s: string)
    ensures Render(Str("", s)) == s
  {
    assert "" + s + "" == s;
  }

  /** A `toUnit` rewrite keeps the number literal verbatim and swaps only the unit. */
  lemma ToUnitKeepsNumber(rules: seq<UnitRule>, split: string -> Option<Dimension>, t: Token, unit: string)
    requires MatchedRule(rules, split, t).Some?
    requires MatchedRule(rules, split, t).value.target == ToUnit(unit)
    ensures t.Word? && split(t.text).Some?
    ensures RewriteToken(rules, split, t).Word?
    ensures Render(RewriteToken(rules, split, t)) == split(t.text).value.number + unit
  {
    var m := FirstMatch(rules, Lower(split(t.text).value.unit));
    assert MatchedRule(rules, split, t) == Some(rules[m.value]);
  }

  /** A `toCssVar` rewrite multiplies the number literal by the custom property. */
  lemma ToCssVarIsCalc(rules: seq<UnitRule>, split: string -> Option<Dimension>, t: Token, name: string)
    requires MatchedRule(rules, split, t).Some?
    requires MatchedRule(rules, split, t).value.target == ToCssVar(name)
    ensures t.Word? && split(t.text).Some?
    ensures Render(RewriteToken(rules, split, t)) == "calc(" + split(t.text).value.number + " * var(" + name + "))"
  {
    var m := FirstMatch(rules, Lower(split(t.text).value.unit));
    assert MatchedRule(rules, split, t) == Some(rules[m.value]);
    assert RewriteToken(rules, split, t) == Str("", "calc(" + split(t.text).value.number + " * var(" + name + "))");
    RenderBare("calc(" + split(t.text).value.number + " * var(" + name + "))");
  }

  /** A `transform` rewrite is a string node rendering as the user function's result on
      the number literal. */
  lemma TransformIsString(rules: seq<UnitRule>, split: string -> Option<Dimension>, t: Token, f: string -> string)
    requires MatchedRule(rules, split, t).Some?
    requires MatchedRule(rules, split, t).value.target == Transform(f)
    ensures t.Word? && split(t.text).Some?
    ensures RewriteToken(rules, split, t).Str?
    ensures Render(RewriteToken(rules, split, t)) == f(split(t.text).value.number)
  {
    var m := FirstMatch(rules, Lower(split(t.text).value.unit));
    assert MatchedRule(rules, split, t) == Some(rules[m.value]);
    assert RewriteToken(rules, split, t) == Str("", f(split(t.text).value.number));
    RenderBare(f(split(t.text).value.number));
  }

  /** The preserve setting a node imposes, if its matched rule defines one. */
  function PreserveOf(rules: seq<UnitRule>, split: string -> Option<Dimension>, t: Token): Option<Preserve> {
    match MatchedRule(rules, split, t)
    case None => None
    case Some(rule) => rule.preserve
  }

  /** `preserve = unit.preserve ?? preserve`, after the walk has visited `ts`. */
  function Effective(global: Preserve, rules: seq<UnitRule>, split: string -> Option<Dimension>, ts: seq<Token>): Preserve {
    if ts == [] then global
    else PreserveOf(rules, split, ts[|ts| - 1]).GetOr(Effective(global, rules, split, ts[..|ts| - 1]))
  }

  /** Without any matched rule that defines `preserve`, the global mode stays in force. */
  lemma {:induction false} EffectiveIsGlobal(global: Preserve, rules: seq<UnitRule>, split: string -> Option<Dimension>, ts: seq<Token>)
    requires forall k :: 0 <= k < |ts| ==> PreserveOf(rules, split, ts[k]).None?
    ensures Effective(global, rules, split, ts) == global
  {
    if ts != [] {
      var pre := ts[..|ts| - 1];
      assert forall k :: 0 <= k < |pre| ==> pre[k] == ts[k];
      EffectiveIsGlobal(global, rules, split, pre);
    }
  }

  /** The effective preserve mode is that of the last node whose matched rule defines one. */
  lemma {:induction false} EffectiveIsLastSetting(global: Preserve, rules: seq<UnitRule>, split: string -> Option<Dimension>, ts: seq<Token>, k: nat)
    requires k < |ts| && PreserveOf(rules, split, ts[k]).Some?
    requires forall m :: k < m < |ts| ==> PreserveOf(rules, split, ts[m]).None?
    ensures Effective(global, rules, split, ts) == PreserveOf(rules, split, ts[k]).value
  {
    if k < |ts| - 1 {
      var pre := ts[..|ts| - 1];
      assert pre[k] == ts[k];
      assert forall m :: k < m < |pre| ==> pre[m] == ts[m];
      EffectiveIsLastSetting(global, rules, split, pre, k);
    }
  }

  /** One more visited node updates the mode by that node's own setting, if any. */
  lemma EffectiveStep(global: Preserve, rules: seq<UnitRule>, split: string -> Option<Dimension>, ts: seq<Token>, k: nat)
    requires k < |ts|
    ensures Effective(global, rules, split, ts[..k + 1])
            == PreserveOf(rules, split, ts[k]).GetOr(Effective(global, rules, split, ts[..k]))
  {
    assert ts[..k + 1][..k] == ts[..k];
  }

  /** The callback the walk calls on each node: the node to put in its place, and the
      preserve setting its matched rule defines, if any. */
  method Visit(rules: seq<UnitRule>, split: string -> Option<Dimension>, t: Token) returns (node: Token, setting: Option<Preserve>)
    ensures node == RewriteToken(rules, split, t)
    ensures setting == PreserveOf(rules, split, t)
  {
    node, setting := t, None;
    if t.Word? {
      var dim := split(t.text);
      if dim.Some? {
        var j := MatchRule(rules, Lower(dim.value.unit));
        if j.Some? {
          var rule := rules[j.value];
          node := Convert(rule.target, dim.value.number);
          setting := rule.preserve;
        }
      }
    }
  }

  /** The walk over the parsed value: every word node is rewritten in place by the first
      applicable rule for its unit, and the effective preserve mode is tracked. */
  method Walk(toks: array<Token>, rules: seq<UnitRule>, split: string -> Option<Dimension>, global: Preserve)
    returns (preserve: Preserve)
    modifies toks
    ensures toks[..] == RewriteAll(rules, split, old(toks[..]))
    ensures preserve == Effective(global, rules, split, old(toks[..]))
  {
    ghost var orig := toks[..];
    preserve := global;
    for k := 0 to toks.Length
      invariant forall m :: 0 <= m < k ==> toks[m] == RewriteToken(rules, split, orig[m])
      invariant forall m :: k <= m < toks.Length ==> toks[m] == orig[m]
      invariant preserve == Effective(global, rules, split, orig[..k])
    {
      EffectiveStep(global, rules, split, orig, k);
      var node, setting := Visit(rules, split, toks[k]);
      toks[k] := node;
      preserve := setting.GetOr(preserve);
    }
    assert orig[..toks.Length] == orig;
  }
}
