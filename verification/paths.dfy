/** The location of a sub-value inside a nested value, attached to every decoding error
    (packages/model/src/path.ts). A path is immutable: prepending builds a new one. */
module Paths {
  import opened Values

  datatype Fragment =
    | Field(fieldName: string)
    | Index(index: int)
    | Variant(variantName: string)

  /** How a fragment is written after its separator. */
  function FragmentToString(fragment: Fragment): (r: string)
    ensures fragment.Field? ==> r == fragment.fieldName
    ensures fragment.Variant? ==> r == fragment.variantName
    ensures fragment.Index? ==> |r| >= 3 && r[0] == '[' && r[|r| - 1] == ']' && '.' !in r
  {
    match fragment
    case Field(name) => name
    case Index(i) =>
      IntToStringHasNoDot(i);
      NoDotInBrackets(IntToString(i));
      "[" + IntToString(i) + "]"
    case Variant(name) => name
  }

  /** The separator written before a fragment: indices are glued to what precedes them. */
  function FragmentToSeparator(lookahead: Fragment): (r: string)
    ensures r == "" <==> lookahead.Index?
    ensures r != "" ==> r == "."
  {
    match lookahead
    case Field(_) => "."
    case Index(_) => ""
    case Variant(_) => "."
  }

  /** The text contributed by a run of fragments, after the leading `$`. */
  function Pieces(fragments: seq<Fragment>): string
  {
    if fragments == [] then ""
    else FragmentToSeparator(fragments[0]) + FragmentToString(fragments[0]) + Pieces(fragments[1..])
  }

  /** `Array.prototype.join('')`. */
  function Join(pieces: seq<string>): string
  {
    if pieces == [] then "" else pieces[0] + Join(pieces[1..])
  }

  lemma {:induction false} PiecesAppend(a: seq<Fragment>, b: seq<Fragment>)
    ensures Pieces(a + b) == Pieces(a) + Pieces(b)
    decreases |a|
  {
    if a == [] {
      assert a + b == b;
    } else {
      assert (a + b)[0] == a[0];
      assert (a + b)[1..] == a[1..] + b;
      PiecesAppend(a[1..], b);
    }
  }

  lemma {:induction false} JoinAppend(a: seq<string>, b: seq<string>)
    ensures Join(a + b) == Join(a) + Join(b)
    decreases |a|
  {
    if a == [] {
      assert a + b == b;
    } else {
      assert (a + b)[0] == a[0];
      assert (a + b)[1..] == a[1..] + b;
      JoinAppend(a[1..], b);
    }
  }

  /** One turn of the loop in `format()`: pushing a fragment's two pieces extends the rendering. */
  lemma JoinPair(a: string, b: string)
    ensures Join([a, b]) == a + b
  {
    assert [a, b][1..] == [b] && [b][1..] == [];
    assert Join([b]) == b;
  }

  lemma PiecesSingle(fragment: Fragment)
    ensures Pieces([fragment]) == FragmentToSeparator(fragment) + FragmentToString(fragment)
  {
    assert [fragment][1..] == [];
  }

  /** The string side of one loop turn: pushing two pieces appends their text. */
  lemma JoinStep(pieces: seq<string>, before: string, sep: string, text: string)
    requires Join(pieces) == "$" + before
    ensures Join(pieces + [sep, text]) == "$" + (before + (sep + text))
  {
    JoinAppend(pieces, [sep, text]);
    JoinPair(sep, text);
  }

  lemma FormatStep(pieces: seq<string>, fragments: seq<Fragment>, i: nat)
    requires i < |fragments|
    requires Join(pieces) == "$" + Pieces(fragments[..i])
    ensures Join(pieces + [FragmentToSeparator(fragments[i]), FragmentToString(fragments[i])]) == "$" + Pieces(fragments[..i + 1])
  {
    var fragment := fragments[i];
    JoinStep(pieces, Pieces(fragments[..i]), FragmentToSeparator(fragment), FragmentToString(fragment));
    PiecesSnoc(fragments, i);
  }

  /** The text of one more fragment of a prefix. */
  lemma PiecesSnoc(fragments: seq<Fragment>, i: nat)
    requires i < |fragments|
    ensures Pieces(fragments[..i + 1]) == Pieces(fragments[..i]) + (FragmentToSeparator(fragments[i]) + FragmentToString(fragments[i]))
  {
    PiecesSingle(fragments[i]);
    PiecesAppend(fragments[..i], [fragments[i]]);
    assert fragments[..i + 1] == fragments[..i] + [fragments[i]];
  }

  lemma PiecesCons(fragment: Fragment, rest: seq<Fragment>)
    ensures Pieces([fragment] + rest) == FragmentToSeparator(fragment) + FragmentToString(fragment) + Pieces(rest)
  {
    assert ([fragment] + rest)[0] == fragment;
    assert ([fragment] + rest)[1..] == rest;
  }

  /** Putting a piece after the `$` of a rendering. */
  lemma DollarPrefix(sep: string, text: string, rest: string)
    ensures "$" + (sep + text + rest) == "$" + sep + text + ("$" + rest)[1..]
  {
    assert ("$" + rest)[1..] == rest;
  }

  /** The loop in `format()` starts from the rendering of no fragments. */
  lemma FormatStart()
    ensures Join(["$"]) == "$" + Pieces([])
  {
    assert ["$"][1..] == [];
  }

  /** An index piece is glued to the `$` with no separator. */
  lemma GlueIndex(digits: string, rest: string)
    ensures "$" + "" + ("[" + digits + "]") + rest == "$[" + digits + "]" + rest
  {
  }

  /** `PathImpl`: a path is the list of its fragments, outermost first. */
  datatype Path = PathImpl(fragments: seq<Fragment>) {

    /** The text `format()` produces, stated as a function. */
    function Rendered(): (s: string)
      ensures |s| >= 1 && s[0] == '$'
    {
      "$" + Pieces(fragments)
    }

    function ToArray(): (r: seq<Fragment>)
      ensures PathImpl(r) == this
      ensures r == [] <==> Rendered() == "$"
    {
      assert fragments != [] ==> |FragmentToSeparator(fragments[0]) + FragmentToString(fragments[0])| >= 1;
      fragments
    }

    function PrependFragment(fragment: Fragment): (p: Path)
      ensures p.ToArray() == [fragment] + ToArray()
      ensures p.Rendered() == "$" + FragmentToSeparator(fragment) + FragmentToString(fragment) + Rendered()[1..]
    {
      var p := PathImpl([fragment] + fragments);
      PiecesCons(fragment, fragments);
      DollarPrefix(FragmentToSeparator(fragment), FragmentToString(fragment), Pieces(fragments));
      p
    }

    function PrependField(fieldName: string): (p: Path)
      ensures |p.ToArray()| == |ToArray()| + 1
      ensures p.ToArray()[0] == Field(fieldName) && p.ToArray()[1..] == ToArray()
      ensures p.Rendered() == "$." + fieldName + Rendered()[1..]
    {
      var p := PrependFragment(Field(fieldName));
      assert "$" + FragmentToSeparator(Field(fieldName)) + FragmentToString(Field(fieldName)) == "$." + fieldName;
      p
    }

    function PrependIndex(index: int): (p: Path)
      ensures |p.ToArray()| == |ToArray()| + 1
      ensures p.ToArray()[0] == Index(index) && p.ToArray()[1..] == ToArray()
      ensures p.Rendered() == "$[" + IntToString(index) + "]" + Rendered()[1..]
    {
      var p := PrependFragment(Index(index));
      GlueIndex(IntToString(index), Rendered()[1..]);
      p
    }

    function PrependVariant(variantName: string): (p: Path)
      ensures |p.ToArray()| == |ToArray()| + 1
      ensures p.ToArray()[0] == Variant(variantName) && p.ToArray()[1..] == ToArray()
      ensures p.Rendered() == "$." + variantName + Rendered()[1..]
    {
      var p := PrependFragment(Variant(variantName));
      assert "$" + FragmentToSeparator(Variant(variantName)) + FragmentToString(Variant(variantName)) == "$." + variantName;
      p
    }

    /** `format()`: pushes a separator and a fragment text per fragment onto `pieces`, then joins. */
    method Format() returns (s: string)
      ensures s == Rendered()
    {
      var pieces := ["$"];
      FormatStart();
      for i := 0 to |fragments|
        invariant Join(pieces) == "$" + Pieces(fragments[..i])
      {
        var fragment := fragments[i];
        FormatStep(pieces, fragments, i);
        pieces := pieces + [FragmentToSeparator(fragment), FragmentToString(fragment)];
      }
      assert fragments[..|fragments|] == fragments;
      s := Join(pieces);
    }
  }

  function Empty(): (p: Path)
    ensures p.ToArray() == [] && p.Rendered() == "$"
  {
    PathImpl([])
  }

  function FromFragments(fragments: seq<Fragment>): (p: Path)
    ensures p.ToArray() == fragments
  {
    PathImpl(fragments)
  }

  /** Formatting is compositional: the rendering of a concatenation is the rendering of the
      outer part followed by the inner part's rendering without its `$`. */
  lemma {:induction false} RenderedConcat(outer: seq<Fragment>, inner: seq<Fragment>)
    ensures FromFragments(outer + inner).Rendered()
         == FromFragments(outer).Rendered() + FromFragments(inner).Rendered()[1..]
  {
    PiecesAppend(outer, inner);
  }

  /** Renderings that error messages show: `$`, `$.a`, `$.select.friends`. */
  lemma FieldRenderings()
    ensures Empty().Rendered() == "$"
    ensures Empty().PrependField("a").Rendered() == "$.a"
    ensures Empty().PrependField("friends").PrependField("select").Rendered() == "$.select.friends"
  {
    assert "$." + "a" == "$.a";
    assert "$." + "select" + "." + "friends" == "$.select.friends";
    SingleFieldRendering("a");
    NestedFieldRendering("select", "friends");
  }

  lemma NestedFieldRendering(outer: string, inner: string)
    ensures Empty().PrependField(inner).PrependField(outer).Rendered() == "$." + outer + "." + inner
  {
    SingleFieldRendering(inner);
    var p := Empty().PrependField(inner);
    assert p.Rendered()[1..] == "." + inner;
  }

  lemma SingleFieldRendering(name: string)
    ensures Empty().PrependField(name).Rendered() == "$." + name
  {
    assert Empty().Rendered()[1..] == [];
  }

  /** Indices are bracketed and glued: `$[2]`, `$.a[0]`; variants are dotted: `$.variant1`. */
  lemma IndexAndVariantRenderings()
    ensures Empty().PrependIndex(2).Rendered() == "$[2]"
    ensures Empty().PrependIndex(0).PrependField("a").Rendered() == "$.a[0]"
    ensures Empty().PrependVariant("variant1").Rendered() == "$.variant1"
  {
    assert IntToString(2) == "2" && IntToString(0) == "0";
    var zero := Empty().PrependIndex(0);
    assert zero.Rendered()[1..] == "[0]";
  }

  /** An index never introduces a dot: its piece is the bracketed decimal number. */
  lemma IndexPieceHasNoDot(i: int)
    ensures FragmentToSeparator(Index(i)) == "" && FragmentToString(Index(i)) == "[" + IntToString(i) + "]"
    ensures '.' !in FragmentToSeparator(Index(i)) + FragmentToString(Index(i))
  {
    assert "" + FragmentToString(Index(i)) == FragmentToString(Index(i));
  }

  /** The decimal rendering of an integer has no dot. */
  lemma IntToStringHasNoDot(i: int)
    ensures '.' !in IntToString(i)
  {
    var digits := NatToString(if i < 0 then -i else i);
    assert '.' !in digits;
    if i < 0 {
      NoDotAfterSign(digits);
    }
  }

  lemma NoDotAfterSign(digits: string)
    requires '.' !in digits
    ensures '.' !in "-" + digits
  {
    assert forall k :: 1 <= k < |"-" + digits| ==> ("-" + digits)[k] == digits[k - 1];
  }

  lemma NoDotInBrackets(text: string)
    requires '.' !in text
    ensures '.' !in "[" + text + "]"
  {
    assert forall k :: 1 <= k < |text| + 1 ==> ("[" + text + "]")[k] == text[k - 1];
  }
}
