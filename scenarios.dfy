/** The repository's test cases, replayed on the handler with small stand-ins for the
    foreign pieces: a detection that looks for a configured unit anywhere in the value, a
    parser that reads a value as one word (or, for the multi-node case, a fixed node list),
    and a splitter that reads a leading sign, digits and dots as the number. The user
    transforms are tables for the inputs they receive, since their float arithmetic is
    not modelled. */
module Scenarios {
  import opened Css
  import opened BetterUnits
  import opened Handler

  predicate NumberChar(w: string, k: nat)
    requires k < |w|
  {
    '0' <= w[k] <= '9' || w[k] == '.' || (k == 0 && (w[k] == '-' || w[k] == '+'))
  }

  function NumberLength(w: string, k: nat): (n: nat)
    requires k <= |w|
    ensures k <= n <= |w|
    decreases |w| - k
  {
    if k < |w| && NumberChar(w, k) then NumberLength(w, k + 1) else k
  }

  lemma {:induction false} NumberLengthIs(w: string, k: nat, n: nat)
    requires k <= n < |w|
    requires forall j :: k <= j < n ==> NumberChar(w, j)
    requires !NumberChar(w, n)
    ensures NumberLength(w, k) == n
    decreases n - k
  {
    if k < n {
      NumberLengthIs(w, k + 1, n);
    }
  }

  function SplitNumber(w: string): Option<Dimension> {
    var n := NumberLength(w, 0);
    if n == 0 then None else Some(Dimension(w[..n], w[n..]))
  }

  predicate OccursAt(s: string, p: string, k: nat) {
    k + |p| <= |s| && s[k..k + |p|] == p
  }

  /** The stand-in for testing an unanchored pattern made of plain characters. */
  predicate Contains(s: string, p: string) {
    exists k: nat | k <= |s| :: OccursAt(s, p, k)
  }

  lemma AbsentFirstChar(s: string, p: string)
    requires p != [] && forall j :: 0 <= j < |s| ==> s[j] != p[0]
    ensures !Contains(s, p)
  {
    forall k: nat | k <= |s| && OccursAt(s, p, k) ensures s[k] == p[0] {
    }
  }

  /** The stand-in detection: some configured unit occurs in the value. */
  predicate MentionsUnit(units: seq<string>, v: string) {
    exists k :: 0 <= k < |units| && Contains(v, units[k])
  }

  const host := Host(
    (units: seq<string>, v: string) => MentionsUnit(units, v),
    (d: Decl) => d.prop + ": " + d.value,
    (v: string) => [Word(v)],
    SplitNumber)

  function Run(units: seq<UnitRule>, parent: string, d: Decl): seq<Decl> {
    Handle(Normalize(Some(UnitList(units))), host, parent, [d], 0)
  }

  /** A one-word value `<number><unit>` in declaration `i` of a rule body, under rules of
      which none excludes it and rule `j` is the first for that unit: the list becomes what
      `Emit` makes of the converted value. */
  lemma {:induction false} OneWordAt(units: seq<UnitRule>, j: nat, parent: string, decls: seq<Decl>, i: nat, n: nat, out: string)
    requires i < |decls| && j < |units|
    requires 0 < n < |decls[i].value| && units[j].fromUnit == decls[i].value[n..]
    requires Lower(units[j].fromUnit) == units[j].fromUnit
    requires forall m :: 0 <= m < j ==> units[m].fromUnit != units[j].fromUnit
    requires forall m :: 0 <= m < |units| ==> !CheckExclude(units[m].exclude, host.show(decls[i]), decls[i], parent)
    requires forall k :: 0 <= k < n ==> NumberChar(decls[i].value, k)
    requires !NumberChar(decls[i].value, n)
    requires out == Render(Convert(units[j].target, decls[i].value[..n])) && out != decls[i].value
    ensures Handle(Normalize(Some(UnitList(units))), host, parent, decls, i)
            == Emit(decls, i, out, units[j].preserve.GetOr(Flag(false)))
  {
    var d := decls[i];
    var rule := units[j];
    NumberLengthIs(d.value, 0, n);
    assert SplitNumber(d.value) == Some(Dimension(d.value[..n], rule.fromUnit));
    assert FromUnits(units)[j] == rule.fromUnit;
    assert OccursAt(d.value, rule.fromUnit, n);
    assert MentionsUnit(FromUnits(units), d.value) by {
      assert Contains(d.value, FromUnits(units)[j]);
    }
    var rules := Applicable(units, host.show(d), d, parent);
    assert rules == units;
    var ts := host.parse(d.value);
    assert ts == [Word(d.value)];
    assert FirstMatch(units, rule.fromUnit) == Some(j);
    assert MatchedRule(rules, host.split, ts[0]) == Some(rule);
    var walked := RewriteAll(rules, host.split, ts);
    assert walked == [Convert(rule.target, d.value[..n])];
    assert Serialize(walked) == out by {
      assert walked[1..] == [];
    }
    assert ts[..0] == [];
    assert Effective(Flag(false), rules, host.split, ts) == rule.preserve.GetOr(Flag(false));
  }

  /** The single-rule, single-declaration case of `OneWordAt`. */
  lemma OneWord(rule: UnitRule, parent: string, d: Decl, n: nat, out: string)
    requires 0 < n < |d.value| && rule.fromUnit == d.value[n..] && Lower(rule.fromUnit) == rule.fromUnit
    requires forall j :: 0 <= j < n ==> NumberChar(d.value, j)
    requires !NumberChar(d.value, n)
    requires !CheckExclude(rule.exclude, host.show(d), d, parent)
    requires out == Render(Convert(rule.target, d.value[..n])) && out != d.value
    ensures Run([rule], parent, d) == Emit([d], 0, out, rule.preserve.GetOr(Flag(false)))
  {
    OneWordAt([rule], 0, parent, [d], 0, n, out);
  }

  lemma UnitToUnit()
    ensures Run([UnitRule("px", ToUnit("rpx"), None, None)], "div", Decl("width", "10px", false))
            == [Decl("width", "10rpx", false)]
  {
    var d := Decl("width", "10px", false);
    assert d.value[2..] == "px" && d.value[..2] == "10";
    OneWord(UnitRule("px", ToUnit("rpx"), None, None), "div", d, 2, "10rpx");
    EmitPlacement([d], 0, "10rpx", Flag(false));
  }

  lemma CalcTen()
    ensures Render(Convert(ToCssVar("--rpx"), "10")) == "calc(10 * var(--rpx))"
  {
    assert "calc(" + "10" + " * var(" + "--rpx" + "))" == "calc(10 * var(--rpx))";
  }

  lemma UnitToCssVar()
    ensures Run([UnitRule("rpx", ToCssVar("--rpx"), None, None)], "div", Decl("width", "10rpx", false))
            == [Decl("width", "calc(10 * var(--rpx))", false)]
  {
    var d := Decl("width", "10rpx", false);
    assert d.value[2..] == "rpx" && d.value[..2] == "10";
    CalcTen();
    OneWord(UnitRule("rpx", ToCssVar("--rpx"), None, None), "div", d, 2, "calc(10 * var(--rpx))");
    EmitPlacement([d], 0, "calc(10 * var(--rpx))", Flag(false));
  }

  /** The test's `value => `${value / 16}rem``, on the one input it receives here. */
  function OverSixteenRem(number: string): string {
    if number == "16" then "1rem" else number + "rem"
  }

  lemma UnitToTransform()
    ensures Run([UnitRule("px", Transform(OverSixteenRem), None, None)], "div", Decl("width", "16px", false))
            == [Decl("width", "1rem", false)]
  {
    var d := Decl("width", "16px", false);
    assert d.value[2..] == "px" && d.value[..2] == "16";
    OneWord(UnitRule("px", Transform(OverSixteenRem), None, None), "div", d, 2, "1rem");
    EmitPlacement([d], 0, "1rem", Flag(false));
  }

  /** The unit of a word is lower-cased before lookup, so `10PX` is converted by a `px` rule. */
  lemma UpperCaseUnitMatched()
    ensures RewriteToken([UnitRule("px", ToUnit("rpx"), None, None)], SplitNumber, Word("10PX")) == Word("10rpx")
  {
    NumberLengthIs("10PX", 0, 2);
    assert "10PX"[..2] == "10" && "10PX"[2..] == "PX";
    assert Lower("PX") == "px";
  }

  /** The sign is part of the number literal and is kept. */
  lemma NegativeValue()
    ensures Run([UnitRule("px", ToUnit("rpx"), None, None)], "div", Decl("margin-left", "-10px", false))
            == [Decl("margin-left", "-10rpx", false)]
  {
    var d := Decl("margin-left", "-10px", false);
    assert d.value[3..] == "px" && d.value[..3] == "-10";
    OneWord(UnitRule("px", ToUnit("rpx"), None, None), "div", d, 3, "-10rpx");
    EmitPlacement([d], 0, "-10rpx", Flag(false));
  }

  /** `preserve: true` puts the new declaration first and keeps the original after it. */
  lemma PreserveTrue()
    ensures Run([UnitRule("dvh", ToUnit("vh"), Some(Flag(true)), None)], "div", Decl("min-height", "100dvh", false))
            == [Decl("min-height", "100vh", false), Decl("min-height", "100dvh", false)]
  {
    var d := Decl("min-height", "100dvh", false);
    assert d.value[3..] == "dvh" && d.value[..3] == "100";
    OneWord(UnitRule("dvh", ToUnit("vh"), Some(Flag(true)), None), "div", d, 3, "100vh");
    EmitPlacement([d], 0, "100vh", Flag(true));
  }

  /** `preserve: 'before'` keeps the original first and puts the new declaration after it. */
  lemma PreserveBefore()
    ensures Run([UnitRule("vh", ToUnit("dvh"), Some(Before), None)], "div", Decl("min-height", "100vh", false))
            == [Decl("min-height", "100vh", false), Decl("min-height", "100dvh", false)]
  {
    var d := Decl("min-height", "100vh", false);
    assert d.value[3..] == "vh" && d.value[..3] == "100";
    OneWord(UnitRule("vh", ToUnit("dvh"), Some(Before), None), "div", d, 3, "100dvh");
    EmitPlacement([d], 0, "100dvh", Before);
  }

  /** A unit spelled like a custom property, `--rpx`, is matched as a whole. */
  lemma VariableUnit()
    ensures Run([UnitRule("--rpx", ToCssVar("--rpx"), None, None)], "div", Decl("width", "10--rpx", false))
            == [Decl("width", "calc(10 * var(--rpx))", false)]
  {
    var d := Decl("width", "10--rpx", false);
    assert d.value[2..] == "--rpx" && d.value[..2] == "10";
    CalcTen();
    OneWord(UnitRule("--rpx", ToCssVar("--rpx"), None, None), "div", d, 2, "calc(10 * var(--rpx))");
    EmitPlacement([d], 0, "calc(10 * var(--rpx))", Flag(false));
  }

  /** `{ fromUnit: 'px', toUnit: 'rpx', exclude: /--rpx/ }` */
  const excludeRpxText := UnitRule("px", ToUnit("rpx"), None, Some(Pattern((s: string) => Contains(s, "--rpx"))))

  /** `{ fromUnit: 'px', toUnit: 'rpx', exclude: (_, { parent }) => parent.selector === ':root' }` */
  const excludeRoot := UnitRule("px", ToUnit("rpx"), None,
                                Some(Callback((text: string, d: Decl, parent: string) => parent == ":root")))

  /** A pattern exclude on the full declaration text spares the custom property that
      defines `--rpx`. */
  lemma ExcludePatternSpares()
    ensures Run([excludeRpxText], ":root", Decl("--rpx", "1px", false)) == [Decl("--rpx", "1px", false)]
  {
    var root := Decl("--rpx", "1px", false);
    assert OccursAt(host.show(root), "--rpx", 0) by {
      assert host.show(root) == "--rpx: 1px";
    }
    AllRulesExcluded(Normalize(Some(UnitList([excludeRpxText]))), host, ":root", root);
  }

  /** The same exclude lets a declaration without `--rpx` in its text through. */
  lemma ExcludePatternRewritesOthers()
    ensures Run([excludeRpxText], "div", Decl("width", "16px", false)) == [Decl("width", "16rpx", false)]
  {
    var d := Decl("width", "16px", false);
    assert !Contains(host.show(d), "--rpx") by {
      var text := host.show(d);
      assert text == "width: 16px";
      assert forall j :: 0 <= j < |text| ==> text[j] != '-';
      AbsentFirstChar(text, "--rpx");
    }
    assert d.value[2..] == "px" && d.value[..2] == "16";
    OneWord(excludeRpxText, "div", d, 2, "16rpx");
    EmitPlacement([d], 0, "16rpx", Flag(false));
  }

  /** A callback exclude sees the parent rule's selector. */
  lemma ExcludeCallbackSpares()
    ensures Run([excludeRoot], ":root", Decl("--rpx", "1px", false)) == [Decl("--rpx", "1px", false)]
  {
    AllRulesExcluded(Normalize(Some(UnitList([excludeRoot]))), host, ":root", Decl("--rpx", "1px", false));
  }

  lemma ExcludeCallbackRewritesOthers()
    ensures Run([excludeRoot], "div", Decl("width", "16px", false)) == [Decl("width", "16rpx", false)]
  {
    var d := Decl("width", "16px", false);
    assert d.value[2..] == "px" && d.value[..2] == "16";
    OneWord(excludeRoot, "div", d, 2, "16rpx");
    EmitPlacement([d], 0, "16rpx", Flag(false));
  }

  /** The test's `value => `${value * 16}px``, on the inputs it receives here. */
  function TimesSixteenPx(number: string): string {
    if number == ".01" then "0.16px" else if number == "1" then "16px" else number + "px"
  }

  const decimalRules := [UnitRule("rpx", ToCssVar("--rpx"), None, None),
                         UnitRule("rem", Transform(TimesSixteenPx), None, None)]

  const decimalNodes := [Word("1.01rpx"), Other(" "), Word(".01rem"), Other(" "), Word("auto")]

  lemma DecimalRpx()
    ensures RewriteToken(decimalRules, SplitNumber, Word("1.01rpx")) == Str("", "calc(1.01 * var(--rpx))")
  {
    NumberLengthIs("1.01rpx", 0, 4);
    assert "1.01rpx"[..4] == "1.01" && "1.01rpx"[4..] == "rpx";
    assert Lower("rpx") == "rpx";
    CalcDecimal();
  }

  lemma CalcDecimal()
    ensures Convert(ToCssVar("--rpx"), "1.01") == Str("", "calc(1.01 * var(--rpx))")
  {
    assert "calc(" + "1.01" + " * var(" + "--rpx" + "))" == "calc(1.01 * var(--rpx))";
  }

  lemma DecimalRem()
    ensures RewriteToken(decimalRules, SplitNumber, Word(".01rem")) == Str("", "0.16px")
  {
    NumberLengthIs(".01rem", 0, 3);
    assert ".01rem"[..3] == ".01" && ".01rem"[3..] == "rem";
    assert Lower("rem") == "rem";
    assert decimalRules[0].fromUnit != "rem";
    assert FirstMatch(decimalRules, "rem") == Some(1);
  }

  lemma DecimalAuto()
    ensures RewriteToken(decimalRules, SplitNumber, Word("auto")) == Word("auto")
  {
    NumberLengthIs("auto", 0, 0);
  }

  /** Every word of `1.01rpx .01rem auto` is looked up on its own: the first two are
      converted by the rule for their unit, `auto` is not a dimension and stays. */
  lemma DecimalValues()
    ensures Serialize(RewriteAll(decimalRules, SplitNumber, decimalNodes)) == "calc(1.01 * var(--rpx)) 0.16px auto"
  {
    var walked := RewriteAll(decimalRules, SplitNumber, decimalNodes);
    assert walked[1] == Other(" ");
    assert decimalNodes[0] == Word("1.01rpx");
    DecimalRpx();
    assert walked[0] == Str("", "calc(1.01 * var(--rpx))");
    assert decimalNodes[2] == Word(".01rem");
    DecimalRem();
    assert walked[2] == Str("", "0.16px");
    assert decimalNodes[4] == Word("auto");
    DecimalAuto();
    assert walked[4] == Word("auto");
    assert walked[3] == Other(" ");
    SerializeFive(walked);
  }

  lemma SerializeFive(walked: seq<Token>)
    requires |walked| == 5
    requires walked[0] == Str("", "calc(1.01 * var(--rpx))") && walked[1] == Other(" ")
    requires walked[2] == Str("", "0.16px") && walked[3] == Other(" ") && walked[4] == Word("auto")
    ensures Serialize(walked) == "calc(1.01 * var(--rpx)) 0.16px auto"
  {
    assert Serialize(walked[4..]) == "auto" by { assert walked[4..][1..] == []; }
    JoinSpaceAuto();
    SerializeStep(walked, 3, " auto");
    JoinPx();
    SerializeStep(walked, 2, "0.16px auto");
    JoinSpacePx();
    SerializeStep(walked, 1, " 0.16px auto");
    JoinCalc();
    SerializeStep(walked, 0, "calc(1.01 * var(--rpx)) 0.16px auto");
  }

  lemma JoinSpaceAuto() ensures " " + "auto" == " auto" {}
  lemma JoinPx() ensures "" + "0.16px" + "" + " auto" == "0.16px auto" {}
  lemma JoinSpacePx() ensures " " + "0.16px auto" == " 0.16px auto" {}
  lemma JoinCalc() ensures "" + "calc(1.01 * var(--rpx))" + "" + " 0.16px auto" == "calc(1.01 * var(--rpx)) 0.16px auto" {}

  lemma SerializeStep(ts: seq<Token>, k: nat, s: string)
    requires k < |ts| && s == Render(ts[k]) + Serialize(ts[k + 1..])
    ensures Serialize(ts[k..]) == s
  {
    assert ts[k..][1..] == ts[k + 1..];
  }

  /** No rule of the decimal case sets `preserve`, so the global `false` stays. */
  lemma DecimalPreserve()
    ensures Effective(Flag(false), decimalRules, SplitNumber, decimalNodes) == Flag(false)
  {
    EffectiveIsGlobal(Flag(false), decimalRules, SplitNumber, decimalNodes);
  }

  const multipleDecls := [Decl("width", "1rem", false), Decl("margin-left", "-16rpx", false)]

  /** Two declarations of one rule body, each converted by a different rule: the handler
      run on the first, then on the second, rewrites both and keeps their order. The sign
      of `-16rpx` stays inside the `calc`. */
  lemma MultipleUnits()
    ensures var e := Normalize(Some(UnitList(decimalRules)));
            var once := Handle(e, host, "div", multipleDecls, 0);
            && once == [Decl("width", "16px", false), Decl("margin-left", "-16rpx", false)]
            && Handle(e, host, "div", once, 1)
               == [Decl("width", "16px", false), Decl("margin-left", "calc(-16 * var(--rpx))", false)]
  {
    MultipleFirst();
    MultipleSecond();
  }

  lemma MultipleFirst()
    ensures Handle(Normalize(Some(UnitList(decimalRules))), host, "div", multipleDecls, 0)
            == [Decl("width", "16px", false), Decl("margin-left", "-16rpx", false)]
  {
    var d := multipleDecls[0];
    assert d.value[1..] == "rem" && d.value[..1] == "1";
    assert Lower("rem") == "rem";
    assert Render(Convert(Transform(TimesSixteenPx), "1")) == "16px";
    OneWordAt(decimalRules, 1, "div", multipleDecls, 0, 1, "16px");
    EmitPlacement(multipleDecls, 0, "16px", Flag(false));
  }

  lemma CalcMinusSixteen()
    ensures Render(Convert(ToCssVar("--rpx"), "-16")) == "calc(-16 * var(--rpx))"
  {
    assert "calc(" + "-16" + " * var(" + "--rpx" + "))" == "calc(-16 * var(--rpx))";
  }

  lemma MinusSixteenRpx()
    ensures "-16rpx"[3..] == "rpx" && "-16rpx"[..3] == "-16"
    ensures forall k :: 0 <= k < 3 ==> NumberChar("-16rpx", k)
    ensures !NumberChar("-16rpx", 3)
  {
    assert "-16rpx"[0] == '-' && "-16rpx"[1] == '1' && "-16rpx"[2] == '6' && "-16rpx"[3] == 'r';
  }

  lemma MultipleSecond()
    ensures Handle(Normalize(Some(UnitList(decimalRules))), host, "div",
                   [Decl("width", "16px", false), Decl("margin-left", "-16rpx", false)], 1)
            == [Decl("width", "16px", false), Decl("margin-left", "calc(-16 * var(--rpx))", false)]
  {
    var decls := [Decl("width", "16px", false), Decl("margin-left", "-16rpx", false)];
    MinusSixteenRpx();
    assert Lower("rpx") == "rpx";
    CalcMinusSixteen();
    OneWordAt(decimalRules, 0, "div", decls, 1, 3, "calc(-16 * var(--rpx))");
    EmitPlacement(decls, 1, "calc(-16 * var(--rpx))", Flag(false));
  }
}
