/** The plugin's `Declaration` handler: detection, global and per-rule exclusion, the walk,
    the no-change guard, and the edit of the rule body's declaration list. */
module Handler {
  import opened Css
  import opened BetterUnits

  /** What the host processor and the value parser supply; all foreign to the plugin. */
  datatype Host = Host(
    hasUnits: (seq<string>, string) -> bool,   // the case-insensitive detection pattern built from the units
    show: Decl -> string,                      // the declaration's full text
    parse: string -> seq<Token>,               // the value parser, nodes in walk order
    split: string -> Option<Dimension>)        // the parser's number/unit splitter

  /** What one run of the handler decides for a declaration. */
  datatype Verdict = Unchanged | Rewritten(value: string, preserve: Preserve)

  /** The handler's decision for declaration `d` inside a rule whose selector is `parent`. */
  function Rewrite(e: Engine, h: Host, parent: string, d: Decl): (r: Verdict)
    ensures !h.hasUnits(FromUnits(e.units), d.value) ==> r == Unchanged
    ensures CheckExclude(e.exclude, h.show(d), d, parent) ==> r == Unchanged
    ensures Applicable(e.units, h.show(d), d, parent) == [] ==> r == Unchanged
    ensures r.Rewritten? ==> r.value != d.value
  {
    if !h.hasUnits(FromUnits(e.units), d.value) then Unchanged
    else
      var text := h.show(d);
      if CheckExclude(e.exclude, text, d, parent) then Unchanged
      else
        var rules := Applicable(e.units, text, d, parent);
        if rules == [] then Unchanged
        else
          var ts := h.parse(d.value);
          var value := Serialize(RewriteAll(rules, h.split, ts));
          if value == d.value then Unchanged
          else Rewritten(value, Effective(e.preserve, rules, h.split, ts))
  }

  /** With no rules configured, or every rule excluded for this declaration, nothing changes. */
  lemma AllRulesExcluded(e: Engine, h: Host, parent: string, d: Decl)
    requires forall k :: 0 <= k < |e.units| ==> CheckExclude(e.units[k].exclude, h.show(d), d, parent)
    ensures Rewrite(e, h, parent, d) == Unchanged
  {
  }

  /** When no node of the parsed value has a unit some applicable rule converts, and the
      parser gives back the text it was given, nothing changes. */
  lemma NoConvertibleUnit(e: Engine, h: Host, parent: string, d: Decl)
    requires Serialize(h.parse(d.value)) == d.value
    requires forall k :: 0 <= k < |h.parse(d.value)| ==>
               var t := h.parse(d.value)[k];
               !t.Word? || h.split(t.text).None?
               || forall m :: 0 <= m < |Applicable(e.units, h.show(d), d, parent)| ==>
                    Applicable(e.units, h.show(d), d, parent)[m].fromUnit != Lower(h.split(t.text).value.unit)
    ensures Rewrite(e, h, parent, d) == Unchanged
  {
    var ts := h.parse(d.value);
    var rules := Applicable(e.units, h.show(d), d, parent);
    NothingMatchedNothingChanged(rules, h.split, ts);
  }

  /** When detection succeeds, neither the global exclude nor every rule's own exclude
      matches, and the walked value differs from the original, the handler rewrites: the
      declaration list becomes the sibling edit for the walked value and tracked mode. */
  lemma RewriteHappens(e: Engine, h: Host, parent: string, decls: seq<Decl>, i: nat)
    requires i < |decls|
    requires h.hasUnits(FromUnits(e.units), decls[i].value)
    requires !CheckExclude(e.exclude, h.show(decls[i]), decls[i], parent)
    requires Applicable(e.units, h.show(decls[i]), decls[i], parent) != []
    requires Serialize(RewriteAll(Applicable(e.units, h.show(decls[i]), decls[i], parent),
                                  h.split, h.parse(decls[i].value))) != decls[i].value
    ensures var d := decls[i];
            var rules := Applicable(e.units, h.show(d), d, parent);
            var ts := h.parse(d.value);
            var value := Serialize(RewriteAll(rules, h.split, ts));
            var p := Effective(e.preserve, rules, h.split, ts);
            && Rewrite(e, h, parent, d) == Rewritten(value, p)
            && Handle(e, h, parent, decls, i) == Emit(decls, i, value, p)
  {
  }

  /** A rewrite carries the serialised walked value and the preserve mode tracked by the walk. */
  lemma RewrittenValue(e: Engine, h: Host, parent: string, d: Decl)
    requires Rewrite(e, h, parent, d).Rewritten?
    ensures var rules := Applicable(e.units, h.show(d), d, parent);
            var ts := h.parse(d.value);
            && rules != []
            && Rewrite(e, h, parent, d).value == Serialize(RewriteAll(rules, h.split, ts))
            && Rewrite(e, h, parent, d).preserve == Effective(e.preserve, rules, h.split, ts)
  {
  }

  /** The declaration list after the clone of `decls[i]` carrying `value` is inserted, and
      the original removed when `p` is `false`: `'before'` keeps the original first, `true`
      and `'after'` put the clone first. */
  function Emit(decls: seq<Decl>, i: nat, value: string, p: Preserve): (r: seq<Decl>)
    requires i < |decls|
    ensures |r| == if Truthy(p) then |decls| + 1 else |decls|
  {
    var clone := decls[i].(value := value);
    if p == Before then decls[..i + 1] + [clone] + decls[i + 1..]
    else if Truthy(p) then decls[..i] + [clone] + decls[i..]
    else decls[..i] + [clone] + decls[i + 1..]
  }

  /** Exactly one declaration is added, the clone; the original is dropped only when the
      preserve mode is `false`; all other siblings keep their order around it. */
  lemma EmitPlacement(decls: seq<Decl>, i: nat, value: string, p: Preserve)
    requires i < |decls|
    ensures var r := Emit(decls, i, value, p);
            var clone := decls[i].(value := value);
            && r[..i] == decls[..i]
            && (p == Before ==> r[i] == decls[i] && r[i + 1] == clone && r[i + 2..] == decls[i + 1..])
            && (p == Flag(true) || p == After ==> r[i] == clone && r[i + 1] == decls[i] && r[i + 2..] == decls[i + 1..])
            && (p == Flag(false) ==> r[i] == clone && r[i + 1..] == decls[i + 1..])
  {
  }

  lemma EmitMultiset(decls: seq<Decl>, i: nat, value: string, p: Preserve)
    requires i < |decls|
    ensures var clone := decls[i].(value := value);
            multiset(Emit(decls, i, value, p))
              == if Truthy(p) then multiset(decls) + multiset{clone}
                 else multiset(decls) - multiset{decls[i]} + multiset{clone}
  {
    var clone := decls[i].(value := value);
    assert decls == decls[..i] + [decls[i]] + decls[i + 1..];
    assert decls[i..] == [decls[i]] + decls[i + 1..];
    if p == Before {
      assert decls[..i + 1] == decls[..i] + [decls[i]];
    }
  }

  /** The full effect of one handler run on the rule body's declaration list. */
  function Handle(e: Engine, h: Host, parent: string, decls: seq<Decl>, i: nat): (r: seq<Decl>)
    requires i < |decls|
    ensures Rewrite(e, h, parent, decls[i]).Unchanged? ==> r == decls
    ensures Rewrite(e, h, parent, decls[i]).Rewritten? ==>
              exists k :: 0 <= k < |r| && r[k] == decls[i].(value := Rewrite(e, h, parent, decls[i]).value)
  {
    match Rewrite(e, h, parent, decls[i])
    case Unchanged => decls
    case Rewritten(value, p) =>
      EmitPlacement(decls, i, value, p);
      Emit(decls, i, value, p)
  }

  /** A rule body: its selector and its list of declarations, which the handler edits. */
  class RuleBody {
    const selector: string
    var decls: seq<Decl>

    constructor (selector: string, decls: seq<Decl>)
      ensures this.selector == selector && this.decls == decls
    {
      this.selector := selector;
      this.decls := decls;
    }

    /** `cloneBefore({ value })` on declaration `i`. */
    method CloneBefore(i: nat, value: string)
      requires i < |decls|
      modifies this
      ensures decls == old(decls[..i] + [decls[i].(value := value)] + decls[i..])
    {
      decls := decls[..i] + [decls[i].(value := value)] + decls[i..];
    }

    /** `cloneAfter({ value })` on declaration `i`. */
    method CloneAfter(i: nat, value: string)
      requires i < |decls|
      modifies this
      ensures decls == old(decls[..i + 1] + [decls[i].(value := value)] + decls[i + 1..])
    {
      decls := decls[..i + 1] + [decls[i].(value := value)] + decls[i + 1..];
    }

    /** `remove()` on declaration `i`. */
    method Remove(i: nat)
      requires i < |decls|
      modifies this
      ensures decls == old(decls[..i] + decls[i + 1..])
    {
      decls := decls[..i] + decls[i + 1..];
    }

    /** The `Declaration` handler run on declaration `i` of this rule body. */
    method Process(i: nat, e: Engine, h: Host)
      requires i < |decls|
      modifies this
      ensures decls == Handle(e, h, selector, old(decls), i)
    {
      var d := decls[i];
      if !h.hasUnits(FromUnits(e.units), d.value) {
        return;
      }
      var text := h.show(d);
      if CheckExclude(e.exclude, text, d, selector) {
        return;
      }
      var rules := Applicable(e.units, text, d, selector);
      if |rules| == 0 {
        return;
      }
      var ts := h.parse(d.value);
      var toks := new Token[|ts|](k requires 0 <= k < |ts| => ts[k]);
      assert toks[..] == ts;
      var preserve := Walk(toks, rules, h.split, e.preserve);
      var modified := Serialize(toks[..]);
      if modified == d.value {
        return;
      }
      ghost var before := decls;
      if preserve == Before {
        CloneAfter(i, modified);
      } else {
        CloneBefore(i, modified);
      }
      if preserve == Flag(false) {
        assert decls[i + 1] == d;
        Remove(i + 1);
        assert decls == before[..i] + [d.(value := modified)] + before[i + 1..];
      }
    }
  }
}
