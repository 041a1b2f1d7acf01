/** Dotted names and their labels. */
module Names {
  import opened Text

  /** The labels of a name, the first one in front. */
  datatype Labels = Root | Label(head: string, above: Labels)

  function Count(ls: Labels): nat {
    match ls
    case Root => 0
    case Label(_, above) => 1 + Count(above)
  }

  function Append(a: Labels, b: Labels): Labels {
    match a
    case Root => b
    case Label(head, above) => Label(head, Append(above, b))
  }

  /** The place of the first `c` at or after `from`, or the length of the string. */
  function IndexOf(s: string, c: char, from: nat): (r: nat)
    requires from <= |s|
    ensures from <= r <= |s|
    ensures forall i :: from <= i < r ==> s[i] != c
    ensures r < |s| ==> s[r] == c
    decreases |s| - from
  {
    if from == |s| || s[from] == c then from else IndexOf(s, c, from + 1)
  }

  /** The pieces between the dots, empty ones included. */
  function Pieces(s: string): Labels
    decreases |s|
  {
    var d := IndexOf(s, '.', 0);
    if d == |s| then Label(s, Root) else Label(s[..d], Pieces(s[d + 1..]))
  }

  /** Labels joined with dots. */
  function Dotted(ls: Labels): string {
    match ls
    case Root => ""
    case Label(head, Root) => head
    case Label(head, above) => head + "." + Dotted(above)
  }

  function NonEmpty(ls: Labels): Labels {
    match ls
    case Root => Root
    case Label(head, above) => if head == "" then NonEmpty(above) else Label(head, NonEmpty(above))
  }

  /** The lowered labels of a name, empty ones dropped. */
  function NameLabels(s: string): Labels {
    NonEmpty(Pieces(Lower(s)))
  }

  /** A name in lower case without empty labels. */
  function Normalized(s: string): string {
    Dotted(NameLabels(s))
  }

  predicate HasEmpty(ls: Labels) {
    ls.Label? && (ls.head == "" || HasEmpty(ls.above))
  }

  ghost predicate NoEmptyLabel(s: string) {
    !HasEmpty(Pieces(s))
  }

  /** No label is split by a dot. */
  predicate Undotted(ls: Labels) {
    ls.Label? ==> '.' !in ls.head && Undotted(ls.above)
  }

  /** Labels as they stand in a name: neither empty nor split by a dot. */
  predicate AreLabels(ls: Labels) {
    Undotted(ls) && !HasEmpty(ls)
  }

  /** `r` is what is left of `d` without its first labels. */
  predicate IsTail(d: Labels, r: Labels) {
    d == r || (d.Label? && IsTail(d.above, r))
  }

  /** The name `r` itself, or a name under it. */
  predicate SameOrUnder(d: string, r: string) {
    d == r || EndsWith(d, "." + r)
  }

  // ---------------------------------------------------------------------

  lemma IndexOfIs(s: string, c: char, from: nat, r: nat)
    requires from <= r <= |s|
    requires forall i :: from <= i < r ==> s[i] != c
    requires r < |s| ==> s[r] == c
    ensures IndexOf(s, c, from) == r
  {
  }

  lemma {:induction false} DottedPieces(s: string)
    ensures Dotted(Pieces(s)) == s
    decreases |s|
  {
    var d := IndexOf(s, '.', 0);
    if d < |s| {
      DottedPieces(s[d + 1..]);
      assert Pieces(s[d + 1..]).Label?;
      assert s == s[..d] + "." + s[d + 1..];
    }
  }

  lemma {:induction false} PiecesOfJoin(s: string, t: string)
    ensures Pieces(s + "." + t) == Append(Pieces(s), Pieces(t))
    decreases |s|
  {
    var w := s + "." + t;
    var d := IndexOf(s, '.', 0);
    IndexOfIs(w, '.', 0, d);
    if d < |s| {
      assert w[d + 1..] == s[d + 1..] + "." + t;
      assert w[..d] == s[..d];
      PiecesOfJoin(s[d + 1..], t);
    } else {
      assert w[d + 1..] == t && w[..d] == s;
    }
  }

  lemma {:induction false} PiecesOfDotted(ls: Labels)
    requires ls.Label? && Undotted(ls)
    ensures Pieces(Dotted(ls)) == ls
  {
    IndexOfIs(ls.head, '.', 0, |ls.head|);
    if ls.above.Label? {
      PiecesOfDotted(ls.above);
      PiecesOfJoin(ls.head, Dotted(ls.above));
    }
  }

  lemma {:induction false} PiecesAreUndotted(s: string)
    ensures Undotted(Pieces(s))
    decreases |s|
  {
    var d := IndexOf(s, '.', 0);
    if d < |s| { PiecesAreUndotted(s[d + 1..]); }
  }

  lemma {:induction false} NonEmptyAreLabels(ls: Labels)
    requires Undotted(ls)
    ensures AreLabels(NonEmpty(ls))
    ensures !HasEmpty(ls) ==> NonEmpty(ls) == ls
  {
    if ls.Label? { NonEmptyAreLabels(ls.above); }
  }

  lemma {:induction false} NonEmptyOfAppend(a: Labels, b: Labels)
    ensures NonEmpty(Append(a, b)) == Append(NonEmpty(a), NonEmpty(b))
  {
    if a.Label? { NonEmptyOfAppend(a.above, b); }
  }

  lemma {:induction false} AppendRoot(a: Labels)
    ensures Append(a, Root) == a
  {
    if a.Label? { AppendRoot(a.above); }
  }

  lemma NameLabelsAreLabels(s: string)
    ensures AreLabels(NameLabels(s))
  {
    PiecesAreUndotted(Lower(s));
    NonEmptyAreLabels(Pieces(Lower(s)));
  }

  lemma DottedIsEmpty(ls: Labels)
    requires AreLabels(ls)
    ensures Dotted(ls) == "" <==> ls == Root
  {
  }

  /** A name is in its normal form, up to case, exactly when it has no empty
      label; the empty name is the one other fixed point. */
  lemma NormalizedIsLower(s: string)
    ensures Normalized(s) == Lower(s) <==> NoEmptyLabel(Lower(s)) || s == ""
  {
    var ps := Pieces(Lower(s));
    PiecesAreUndotted(Lower(s));
    NonEmptyAreLabels(ps);
    DottedPieces(Lower(s));
    DottedIsEmpty(NameLabels(s));
    assert Lower(s) == "" <==> s == "";
    if s == "" {
      assert Pieces("") == Label("", Root);
    } else if Normalized(s) == Lower(s) {
      PiecesOfDotted(NameLabels(s));
    }
  }

  lemma DottedInjective(a: Labels, b: Labels)
    requires AreLabels(a) && AreLabels(b)
    ensures Dotted(a) == Dotted(b) <==> a == b
  {
    DottedIsEmpty(a);
    DottedIsEmpty(b);
    if a.Label? { PiecesOfDotted(a); }
    if b.Label? { PiecesOfDotted(b); }
  }

  /** One normal form is one list of labels. */
  lemma NormalizedDecidesLabels(s: string, t: string)
    ensures Normalized(s) == Normalized(t) <==> NameLabels(s) == NameLabels(t)
  {
    NameLabelsAreLabels(s);
    NameLabelsAreLabels(t);
    DottedInjective(NameLabels(s), NameLabels(t));
  }

  lemma {:induction false} TailGivesUnder(d: Labels, r: Labels)
    requires r.Label? && IsTail(d, r)
    ensures SameOrUnder(Dotted(d), Dotted(r))
  {
    if d != r {
      TailGivesUnder(d.above, r);
      assert d.above.Label?;
      var w := Dotted(d);
      assert w == d.head + "." + Dotted(d.above);
      if Dotted(d.above) == Dotted(r) {
        assert w[|d.head|..] == "." + Dotted(r);
      } else {
        var k := |Dotted(d.above)| - |"." + Dotted(r)|;
        assert w[|d.head| + 1 + k..] == Dotted(d.above)[k..];
      }
    }
  }

  lemma {:induction false} AppendHasTail(a: Labels, b: Labels)
    ensures IsTail(Append(a, b), b)
  {
    if a.Label? { AppendHasTail(a.above, b); }
  }

  lemma UnderGivesTail(d: Labels, r: Labels, y: string)
    requires AreLabels(d) && AreLabels(r) && r.Label?
    requires Dotted(d) == y + "." + Dotted(r)
    ensures IsTail(d, r)
  {
    PiecesOfJoin(y, Dotted(r));
    PiecesOfDotted(r);
    assert d.Label?;
    PiecesOfDotted(d);
    AppendHasTail(Pieces(y), r);
  }

  /** Labels compared from the last one on are names compared at a dot. */
  lemma TailIsUnder(d: Labels, r: Labels)
    requires AreLabels(d) && AreLabels(r) && r.Label?
    ensures SameOrUnder(Dotted(d), Dotted(r)) <==> IsTail(d, r)
  {
    if IsTail(d, r) {
      TailGivesUnder(d, r);
    }
    if Dotted(d) == Dotted(r) {
      DottedInjective(d, r);
    } else if EndsWith(Dotted(d), "." + Dotted(r)) {
      var y := Dotted(d)[..|Dotted(d)| - |"." + Dotted(r)|];
      assert Dotted(d) == y + ("." + Dotted(r)) == y + "." + Dotted(r);
      UnderGivesTail(d, r, y);
    }
  }

  // ---------------------------------------------------------------------
  // Turns of a splitter
  // ---------------------------------------------------------------------

  lemma LeadingDot(s: string)
    requires s != "" && s[0] == '.'
    ensures NameLabels(s) == NameLabels(s[1..])
  {
    assert Lower(s) == "" + "." + Lower(s[1..]);
    PiecesOfJoin("", Lower(s[1..]));
    assert Pieces("") == Label("", Root);
  }

  lemma TrailingDot(s: string)
    requires s != "" && s[|s| - 1] == '.'
    ensures NameLabels(s) == NameLabels(s[..|s| - 1])
  {
    var front := Lower(s[..|s| - 1]);
    assert Lower(s) == front + "." + "";
    PiecesOfJoin(front, "");
    assert Pieces("") == Label("", Root);
    NonEmptyOfAppend(Pieces(front), Label("", Root));
    AppendRoot(NonEmpty(Pieces(front)));
  }

  lemma PieceAlone(x: string)
    requires '.' !in x
    ensures Pieces(Lower(x)) == Label(Lower(x), Root)
    ensures NameLabels(x) == if x != "" then Label(Lower(x), Root) else Root
  {
    forall i | 0 <= i < |x| ensures Lower(x)[i] != '.' {
      assert x[i] in x;
    }
    IndexOfIs(Lower(x), '.', 0, |x|);
    assert Lower(x) == "" <==> x == "";
    assert NonEmpty(Label(Lower(x), Root)) == if x != "" then Label(Lower(x), Root) else Root;
  }

  lemma PieceAndRest(x: string, y: string)
    requires '.' !in x
    ensures NameLabels(x + "." + y) == if x != "" then Label(Lower(x), NameLabels(y)) else NameLabels(y)
  {
    PieceAlone(x);
    assert Lower(x + "." + y) == Lower(x) + "." + Lower(y);
    PiecesOfJoin(Lower(x), Lower(y));
    assert Append(Label(Lower(x), Root), Pieces(Lower(y))) == Label(Lower(x), Pieces(Lower(y)));
  }

  lemma SplitAtDot(s: string, start: nat)
    requires start < |s|
    ensures var dot := IndexOf(s, '.', start);
            var piece := s[start..dot];
            var others := if dot < |s| then NameLabels(s[dot + 1..]) else Root;
            NameLabels(s[start..]) == if piece != "" then Label(Lower(piece), others) else others
  {
    var dot := IndexOf(s, '.', start);
    var piece := s[start..dot];
    if dot == |s| {
      PieceAlone(piece);
      assert s[start..] == piece;
    } else {
      PieceAndRest(piece, s[dot + 1..]);
      assert s[start..] == piece + "." + s[dot + 1..];
    }
  }
}
