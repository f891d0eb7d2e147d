/**
The abstract red-black tree: a tree whose nodes are row ids with a colour, and the
path ("zipper") from a subtree up to the root. All the red-black theory is here;
nothing in this module knows about the node array.
*/
module RbShape {

  datatype Tree = Nil | Node(red: bool, l: Tree, x: nat, r: Tree)

  /** The way from a subtree to the root: InL means the subtree is the left child of `x`. */
  datatype Path =
    | Top
    | InL(red: bool, x: nat, r: Tree, up: Path)
    | InR(red: bool, l: Tree, x: nat, up: Path)

  /** The row id at the root, 0 for the nil tree. */
  function Root(t: Tree): nat { if t.Nil? then 0 else t.x }

  /** The row id of the parent of the subtree at the end of the path, 0 at the top. */
  function Parent(p: Path): nat { if p.Top? then 0 else p.x }

  /** The root of the whole tree when the path ends in a subtree rooted at `hole`. */
  function RootAbove(p: Path, hole: nat): nat {
    if p.Top? then hole else RootAbove(p.up, p.x)
  }

  function Step(p: Path, t: Tree): Tree
    requires !p.Top?
  {
    if p.InL? then Node(p.red, t, p.x, p.r) else Node(p.red, p.l, p.x, t)
  }

  /** The path with its lowest node painted. */
  function Repainted(p: Path, red: bool): Path
    requires !p.Top?
  {
    if p.InL? then InL(red, p.x, p.r, p.up) else InR(red, p.l, p.x, p.up)
  }

  /** The whole tree: the subtree put back at the end of the path. */
  function Plug(p: Path, t: Tree): Tree {
    if p.Top? then t else Plug(p.up, Step(p, t))
  }

  /** The path `p` continued upwards by `q`. */
  function Join(p: Path, q: Path): Path {
    match p
    case Top => q
    case InL(c, x, r, up) => InL(c, x, r, Join(up, q))
    case InR(c, l, x, up) => InR(c, l, x, Join(up, q))
  }

  // ----- row ids in the tree

  ghost function Ids(t: Tree): set<nat> {
    if t.Nil? then {} else Ids(t.l) + {t.x} + Ids(t.r)
  }

  ghost function PathIds(p: Path): set<nat> {
    match p
    case Top => {}
    case InL(_, x, r, up) => Ids(r) + {x} + PathIds(up)
    case InR(_, l, x, up) => Ids(l) + {x} + PathIds(up)
  }

  ghost predicate Distinct(t: Tree) {
    t.Node? ==>
      && Distinct(t.l) && Distinct(t.r)
      && t.x !in Ids(t.l) && t.x !in Ids(t.r) && Ids(t.l) !! Ids(t.r)
  }

  ghost predicate PathDistinct(p: Path) {
    match p
    case Top => true
    case InL(_, x, r, up) =>
      Distinct(r) && PathDistinct(up) && x !in Ids(r) && x !in PathIds(up) && Ids(r) !! PathIds(up)
    case InR(_, l, x, up) =>
      Distinct(l) && PathDistinct(up) && x !in Ids(l) && x !in PathIds(up) && Ids(l) !! PathIds(up)
  }

  ghost predicate ZipDistinct(p: Path, t: Tree) {
    Distinct(t) && PathDistinct(p) && Ids(t) !! PathIds(p)
  }

  lemma {:induction false} PlugIds(p: Path, t: Tree)
    ensures Ids(Plug(p, t)) == Ids(t) + PathIds(p)
    ensures ZipDistinct(p, t) <==> Distinct(Plug(p, t))
  {
    if !p.Top? {
      PlugIds(p.up, Step(p, t));
    }
  }

  // ----- in-order row ids

  ghost function Order(t: Tree): seq<nat> {
    if t.Nil? then [] else Order(t.l) + [t.x] + Order(t.r)
  }

  ghost function Before(p: Path): seq<nat> {
    match p
    case Top => []
    case InL(_, _, _, up) => Before(up)
    case InR(_, l, x, up) => Before(up) + (Order(l) + [x])
  }

  ghost function After(p: Path): seq<nat> {
    match p
    case Top => []
    case InL(_, x, r, up) => [x] + Order(r) + After(up)
    case InR(_, _, _, up) => After(up)
  }

  lemma Regroup(a: seq<nat>, b: seq<nat>, c: seq<nat>, d: seq<nat>, e: seq<nat>)
    ensures a + (b + c + d) + e == a + b + (c + d + e)
    ensures a + (b + c + d) + e == (a + (b + c)) + d + e
  {
  }

  lemma {:induction false} PlugOrder(p: Path, t: Tree)
    ensures Order(Plug(p, t)) == Before(p) + Order(t) + After(p)
  {
    match p
    case Top =>
    case InL(_, x, r, up) =>
      PlugOrder(up, Step(p, t));
      Regroup(Before(up), Order(t), [x], Order(r), After(up));
    case InR(_, l, x, up) =>
      PlugOrder(up, Step(p, t));
      Regroup(Before(up), Order(l), [x], Order(t), After(up));
  }

  lemma {:induction false} IdsOrder(t: Tree)
    ensures forall i :: i in Ids(t) <==> i in Order(t)
  {
    if t.Node? {
      IdsOrder(t.l);
      IdsOrder(t.r);
    }
  }

  /** The same in-order sequence below a path gives the same whole sequence and the same ids. */
  lemma SameOrder(p: Path, t: Tree, q: Path, s: Tree)
    requires Before(p) + Order(t) + After(p) == Before(q) + Order(s) + After(q)
    ensures Order(Plug(p, t)) == Order(Plug(q, s)) && Ids(Plug(p, t)) == Ids(Plug(q, s))
  {
    PlugOrder(p, t);
    PlugOrder(q, s);
    IdsOrder(Plug(p, t));
    IdsOrder(Plug(q, s));
  }

  // ----- red-black conditions

  predicate IsRed(t: Tree) { t.Node? && t.red }

  /** No red node has a red child. */
  predicate NoRedRed(t: Tree) {
    t.Node? ==> NoRedRed(t.l) && NoRedRed(t.r) && (t.red ==> !IsRed(t.l) && !IsRed(t.r))
  }

  /** Black nodes on the way down the left edge. */
  function Blacks(t: Tree): nat {
    if t.Nil? then 0 else Blacks(t.l) + (if t.red then 0 else 1)
  }

  /** Every way down to a nil passes the same number of black nodes. */
  predicate Balanced(t: Tree) {
    t.Node? ==> Balanced(t.l) && Balanced(t.r) && Blacks(t.l) == Blacks(t.r)
  }

  predicate RedBlack(t: Tree) { !IsRed(t) && NoRedRed(t) && Balanced(t) }

  /** The path is balanced once a subtree of `h` blacks is put at its end. */
  predicate PathBalanced(p: Path, h: nat) {
    match p
    case Top => true
    case InL(c, _, r, up) => Balanced(r) && Blacks(r) == h && PathBalanced(up, h + (if c then 0 else 1))
    case InR(c, l, _, up) => Balanced(l) && Blacks(l) == h && PathBalanced(up, h + (if c then 0 else 1))
  }

  /** No red node on the path has a red child, the subtree at its end being red or not. */
  predicate PathNoRedRed(p: Path, red: bool) {
    match p
    case Top => true
    case InL(c, _, r, up) => NoRedRed(r) && (c ==> !red && !IsRed(r)) && PathNoRedRed(up, c)
    case InR(c, l, _, up) => NoRedRed(l) && (c ==> !red && !IsRed(l)) && PathNoRedRed(up, c)
  }

  /** The root is on the path and black, or the path is empty. */
  predicate PathRootBlack(p: Path) {
    !p.Top? ==> (if p.up.Top? then !p.red else PathRootBlack(p.up))
  }

  lemma {:induction false} PlugRedBlack(p: Path, t: Tree)
    ensures Balanced(Plug(p, t)) <==> Balanced(t) && PathBalanced(p, Blacks(t))
    ensures NoRedRed(Plug(p, t)) <==> NoRedRed(t) && PathNoRedRed(p, IsRed(t))
    ensures IsRed(Plug(p, t)) <==> (if p.Top? then IsRed(t) else !PathRootBlack(p))
  {
    if !p.Top? {
      PlugRedBlack(p.up, Step(p, t));
    }
  }
}
