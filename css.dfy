/** The host-side data the unit rewriter works on: declarations handed over by the
    CSS processor, and the flat token sequence produced by the value parser. */
module Css {

  datatype Option<+T> = None | Some(value: T) {
    function GetOr(default: T): T {
      match this
      case Some(v) => v
      case None => default
    }
  }

  /** A declaration `prop: value` inside a rule body. A clone copies every field. */
  datatype Decl = Decl(prop: string, value: string, important: bool)

  /** A word split into its numeric literal (sign and decimals kept verbatim) and its unit. */
  datatype Dimension = Dimension(number: string, unit: string)

  /** One node of a parsed value. A function node is flattened in walk order: its opening
      `name(` comes first, then its children, then its closing `)`. */
  datatype Token =
    | Word(text: string)
    | Str(quote: string, text: string)
    | FuncOpen(name: string)
    | FuncClose
    | Other(text: string)   // space, division, comment, unicode range

  /** The text a node contributes when the value is serialised again. A string node with
      no quote (a word whose type was switched to string) renders its text bare. */
  function Render(t: Token): string {
    match t
    case Word(s) => s
    case Str(q, s) => q + s + q
    case FuncOpen(name) => name + "("
    case FuncClose => ")"
    case Other(s) => s
  }

  /** Serialisation of a token sequence: the concatenation of the nodes' texts. */
  function Serialize(ts: seq<Token>): string {
    if ts == [] then "" else Render(ts[0]) + Serialize(ts[1..])
  }

  lemma {:induction false} SerializeAppend(a: seq<Token>, b: seq<Token>)
    ensures Serialize(a + b) == Serialize(a) + Serialize(b)
  {
    if a == [] {
      assert a + b == b;
    } else {
      assert (a + b)[1..] == a[1..] + b;
      SerializeAppend(a[1..], b);
    }
  }

  predicate IsUpper(c: char) {
    'A' <= c <= 'Z'
  }

  function LowerChar(c: char): char {
    if IsUpper(c) then (c as int - 'A' as int + 'a' as int) as char else c
  }

  /** `toLowerCase`, on the ASCII letters. */
  function Lower(s: string): (r: string)
    ensures |r| == |s|
  {
    if s == [] then [] else [LowerChar(s[0])] + Lower(s[1..])
  }

  /** Lower-casing works character by character: each upper-case letter becomes its
      lower-case letter and every other character stays in place. */
  lemma {:induction false} LowerEachChar(s: string)
    ensures forall k :: 0 <= k < |s| && IsUpper(s[k]) ==> Lower(s)[k] as int == s[k] as int + 32
    ensures forall k :: 0 <= k < |s| && !IsUpper(s[k]) ==> Lower(s)[k] == s[k]
  {
    if s != [] {
      LowerEachChar(s[1..]);
      assert forall k :: 0 < k < |s| ==> s[1..][k - 1] == s[k];
    }
  }

  lemma {:induction false} LowerHasNoUpper(s: string)
    ensures forall k :: 0 <= k < |Lower(s)| ==> !IsUpper(Lower(s)[k])
  {
    if s != [] {
      LowerHasNoUpper(s[1..]);
      assert Lower(s) == [LowerChar(s[0])] + Lower(s[1..]);
    }
  }

  /** A string with no upper-case letter is already lower-cased. */
  lemma LowerOfLowerCase(s: string)
    requires forall k :: 0 <= k < |s| ==> !IsUpper(s[k])
    ensures Lower(s) == s
  {
    LowerEachChar(s);
  }

  /** Lower-casing is idempotent: a lower-cased unit is its own normal form. */
  lemma {:induction false} LowerIdempotent(s: string)
    ensures Lower(Lower(s)) == Lower(s)
  {
    if s != [] {
      LowerIdempotent(s[1..]);
      assert Lower(s)[1..] == Lower(s[1..]);
    }
  }
}
