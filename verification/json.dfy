/** A JSON value as `serde_json::Value` holds it. An object's members are kept in
    the order the map iterates them; numbers keep their textual form, since no
    property here looks at them. */
module Json {

  datatype Value =
    | Null
    | Bool(b: bool)
    | Number(text: string)
    | String(s: string)
    | Array(elems: seq<Value>)
    | Object(members: seq<Member>)

  datatype Member = Member(key: string, value: Value)

  /** Reference definition: the string leaves of a value, depth first, array
      elements and object members left to right. Object keys are not leaves. */
  function Leaves(v: Value): seq<string>
  {
    match v
    case String(s) => [s]
    case Array(vs) => ElemLeaves(vs)
    case Object(ms) => MemberLeaves(ms)
    case _ => []
  }

  function ElemLeaves(vs: seq<Value>): seq<string>
  {
    if vs == [] then [] else Leaves(vs[0]) + ElemLeaves(vs[1..])
  }

  function MemberLeaves(ms: seq<Member>): seq<string>
  {
    if ms == [] then [] else Leaves(ms[0].value) + MemberLeaves(ms[1..])
  }
}

/** `JsonStrVisitor`: walks a JSON value and appends to `collected` every string
    leaf `s` for which `predicate(op(s))` holds. The pushed value is `s` itself. */
module JsonVisitor {
  import opened Seqs
  import opened Json

  /** The leaves `s` of `ss`, in order, for which `pred(op(s))` holds. */
  function Selected(ss: seq<string>, pred: string -> bool, op: string -> string): (r: seq<string>)
    ensures |r| <= |ss|
  {
    if ss == [] then []
    else if pred(op(ss[0])) then [ss[0]] + Selected(ss[1..], pred, op)
    else Selected(ss[1..], pred, op)
  }

  /** `Selected` keeps exactly the accepted strings: each one it returns is an
      accepted member of `ss`, and each accepted string occurs as often as in `ss`. */
  lemma {:induction false} SelectedSpec(ss: seq<string>, pred: string -> bool, op: string -> string)
    ensures forall x :: x in Selected(ss, pred, op) ==> x in ss && pred(op(x))
    ensures forall x :: pred(op(x)) ==> multiset(Selected(ss, pred, op))[x] == multiset(ss)[x]
    decreases |ss|
  {
    if ss != [] {
      SelectedSpec(ss[1..], pred, op);
      assert ss == [ss[0]] + ss[1..];
    }
  }

  lemma {:induction false} SelectedAppend(a: seq<string>, b: seq<string>, pred: string -> bool, op: string -> string)
    ensures Selected(a + b, pred, op) == Selected(a, pred, op) + Selected(b, pred, op)
    decreases |a|
  {
    if a != [] {
      assert (a + b)[0] == a[0];
      assert (a + b)[1..] == a[1..] + b;
      SelectedAppend(a[1..], b, pred, op);
      if pred(op(a[0])) {
        calc {
          Selected(a + b, pred, op);
          [a[0]] + Selected(a[1..] + b, pred, op);
          [a[0]] + (Selected(a[1..], pred, op) + Selected(b, pred, op));
          ([a[0]] + Selected(a[1..], pred, op)) + Selected(b, pred, op);
        }
      }
    } else {
      assert a + b == b;
    }
  }

  lemma {:induction false} SelectedElemsCons(vs: seq<Value>, pred: string -> bool, op: string -> string)
    requires vs != []
    ensures Selected(ElemLeaves(vs), pred, op) == Selected(Leaves(vs[0]), pred, op) + Selected(ElemLeaves(vs[1..]), pred, op)
  {
    SelectedAppend(Leaves(vs[0]), ElemLeaves(vs[1..]), pred, op);
  }

  lemma {:induction false} SelectedMembersCons(ms: seq<Member>, pred: string -> bool, op: string -> string)
    requires ms != []
    ensures Selected(MemberLeaves(ms), pred, op) == Selected(Leaves(ms[0].value), pred, op) + Selected(MemberLeaves(ms[1..]), pred, op)
  {
    SelectedAppend(Leaves(ms[0].value), MemberLeaves(ms[1..]), pred, op);
  }


  datatype Visitor = Visitor(collected: seq<string>) {

    /** `visit`: the visitor after walking `v`. Exactly the selected string leaves
        of `v` are appended, in depth-first order, after the earlier entries. */
    function Visit(v: Value, pred: string -> bool, op: string -> string): (r: Visitor)
      ensures r.collected == collected + Selected(Leaves(v), pred, op)
      decreases v
    {
      match v
      case Object(ms) => VisitMembers(ms, pred, op)
      case Array(vs) => VisitElems(vs, pred, op)
      case String(s) => if pred(op(s)) then Visitor(collected + [s]) else this
      case _ => this
    }

    /** The `for v in arr` loop of `visit`. */
    function VisitElems(vs: seq<Value>, pred: string -> bool, op: string -> string): (r: Visitor)
      ensures r.collected == collected + Selected(ElemLeaves(vs), pred, op)
      decreases vs
    {
      if vs == [] then this
      else
        var w := Visit(vs[0], pred, op);
        var r := w.VisitElems(vs[1..], pred, op);
        SelectedElemsCons(vs, pred, op);
        ConcatAssoc(collected, Selected(Leaves(vs[0]), pred, op), Selected(ElemLeaves(vs[1..]), pred, op));
        r
    }

    /** The `for (_, v) in map` loop of `visit`: keys are not visited. */
    function VisitMembers(ms: seq<Member>, pred: string -> bool, op: string -> string): (r: Visitor)
      ensures r.collected == collected + Selected(MemberLeaves(ms), pred, op)
      decreases ms
    {
      if ms == [] then this
      else
        var w := Visit(ms[0].value, pred, op);
        var r := w.VisitMembers(ms[1..], pred, op);
        SelectedMembersCons(ms, pred, op);
        ConcatAssoc(collected, Selected(Leaves(ms[0].value), pred, op), Selected(MemberLeaves(ms[1..]), pred, op));
        r
    }
  }

  /** `JsonStrVisitor::new`. */
  function NewVisitor(): Visitor
  {
    Visitor([])
  }

  /** `collected`: the strings gathered so far. */
  function Collected(w: Visitor): seq<string>
  {
    w.collected
  }

  /** A visit keeps what was collected before as an unchanged prefix, and every
      string it appends is a string leaf of `v` whose transformed form satisfies
      the predicate; each such leaf is appended once per occurrence. */
  lemma {:induction false} VisitAppendsSelectedLeaves(w: Visitor, v: Value, pred: string -> bool, op: string -> string)
    ensures var r := w.Visit(v, pred, op);
      && |w.collected| <= |r.collected|
      && r.collected[..|w.collected|] == w.collected
      && (forall i :: |w.collected| <= i < |r.collected| ==> r.collected[i] in Leaves(v) && pred(op(r.collected[i])))
      && (forall x :: pred(op(x)) ==> multiset(r.collected[|w.collected|..])[x] == multiset(Leaves(v))[x])
  {
    var r := w.Visit(v, pred, op);
    assert r.collected[|w.collected|..] == Selected(Leaves(v), pred, op);
    SelectedSpec(Leaves(v), pred, op);
    forall i | |w.collected| <= i < |r.collected|
      ensures r.collected[i] in Leaves(v) && pred(op(r.collected[i]))
    {
      assert r.collected[i] == Selected(Leaves(v), pred, op)[i - |w.collected|];
    }
  }

  /** The pushed value is the leaf itself, not its image under `op`: with `op`
      mapping everything to "x" and a predicate accepting only "x", the leaf
      "ab" is collected as "ab". */
  lemma {:induction false} VisitPushesOriginal()
    ensures NewVisitor().Visit(String("ab"), s => s == "x", s => "x").collected == ["ab"]
  {
  }

  /** Object keys never contribute: two objects whose member values agree are
      visited alike, whatever their keys. */
  lemma {:induction false} VisitIgnoresKeys(w: Visitor, ms1: seq<Member>, ms2: seq<Member>, pred: string -> bool, op: string -> string)
    requires |ms1| == |ms2|
    requires forall i :: 0 <= i < |ms1| ==> ms1[i].value == ms2[i].value
    ensures w.Visit(Object(ms1), pred, op) == w.Visit(Object(ms2), pred, op)
  {
    MemberLeavesIgnoreKeys(ms1, ms2);
  }

  lemma {:induction false} MemberLeavesIgnoreKeys(ms1: seq<Member>, ms2: seq<Member>)
    requires |ms1| == |ms2|
    requires forall i :: 0 <= i < |ms1| ==> ms1[i].value == ms2[i].value
    ensures MemberLeaves(ms1) == MemberLeaves(ms2)
    decreases |ms1|
  {
    if ms1 != [] {
      MemberLeavesIgnoreKeys(ms1[1..], ms2[1..]);
    }
  }

  /** Null, booleans and numbers never contribute. */
  lemma {:induction false} VisitScalar(w: Visitor, v: Value, pred: string -> bool, op: string -> string)
    requires v.Null? || v.Bool? || v.Number?
    ensures w.Visit(v, pred, op) == w
  {
  }

  /** With a predicate that never holds, `collected` is unchanged. */
  lemma {:induction false} VisitRejectAll(w: Visitor, v: Value, pred: string -> bool, op: string -> string)
    requires forall s :: !pred(op(s))
    ensures w.Visit(v, pred, op) == w
  {
    SelectedNone(Leaves(v), pred, op);
  }

  lemma {:induction false} SelectedNone(ss: seq<string>, pred: string -> bool, op: string -> string)
    requires forall s :: !pred(op(s))
    ensures Selected(ss, pred, op) == []
    decreases |ss|
  {
    if ss != [] {
      SelectedNone(ss[1..], pred, op);
    }
  }

  /** With a predicate that always holds, every string leaf is collected in
      depth-first order. */
  lemma {:induction false} VisitAcceptAll(w: Visitor, v: Value, pred: string -> bool, op: string -> string)
    requires forall s :: pred(op(s))
    ensures w.Visit(v, pred, op).collected == w.collected + Leaves(v)
  {
    SelectedAll(Leaves(v), pred, op);
  }

  lemma {:induction false} SelectedAll(ss: seq<string>, pred: string -> bool, op: string -> string)
    requires forall s :: pred(op(s))
    ensures Selected(ss, pred, op) == ss
    decreases |ss|
  {
    if ss != [] {
      SelectedAll(ss[1..], pred, op);
    }
  }

  /** Visiting an array is visiting its elements one after the other. */
  lemma {:induction false} VisitArrayConcat(w: Visitor, a: seq<Value>, b: seq<Value>, pred: string -> bool, op: string -> string)
    ensures w.Visit(Array(a + b), pred, op) == w.Visit(Array(a), pred, op).Visit(Array(b), pred, op)
  {
    var c := w.collected;
    var ra := Selected(ElemLeaves(a), pred, op);
    var rb := Selected(ElemLeaves(b), pred, op);
    SelectedElemsAppend(a, b, pred, op);
    assert w.Visit(Array(a + b), pred, op) == Visitor(c + Selected(ElemLeaves(a + b), pred, op));
    assert w.Visit(Array(a), pred, op) == Visitor(c + ra);
    assert Visitor(c + ra).Visit(Array(b), pred, op) == Visitor(c + ra + rb);
    ConcatAssoc(c, ra, rb);
  }


  lemma {:induction false} SelectedElemsAppend(a: seq<Value>, b: seq<Value>, pred: string -> bool, op: string -> string)
    ensures Selected(ElemLeaves(a + b), pred, op) == Selected(ElemLeaves(a), pred, op) + Selected(ElemLeaves(b), pred, op)
  {
    ElemLeavesAppend(a, b);
    SelectedAppend(ElemLeaves(a), ElemLeaves(b), pred, op);
  }

  lemma {:induction false} ElemLeavesAppend(a: seq<Value>, b: seq<Value>)
    ensures ElemLeaves(a + b) == ElemLeaves(a) + ElemLeaves(b)
    decreases |a|
  {
    if a != [] {
      assert (a + b)[0] == a[0];
      assert (a + b)[1..] == a[1..] + b;
      ElemLeavesAppend(a[1..], b);
      calc {
        ElemLeaves(a + b);
        Leaves(a[0]) + ElemLeaves(a[1..] + b);
        Leaves(a[0]) + (ElemLeaves(a[1..]) + ElemLeaves(b));
        (Leaves(a[0]) + ElemLeaves(a[1..])) + ElemLeaves(b);
      }
    } else {
      assert a + b == b;
    }
  }
}
