/** When a comparison finds no error: the verdict the code computes (`Accepts`, with its greedy matcher) and
    an independent reading of the documentation (`Conforms`). */
module Acceptance {
  import opened ArrayLen
  import opened Json
  import opened Matching

  datatype Flags = Flags(ignoreValues: bool, unordered: bool, disallowExtra: bool)

  function Rank(v: Value): nat {
    if v.Byte? then 0 else 1
  }

  ghost predicate LengthAccepts(spec: string, a: Value) {
    a.Arr? && exists lo, hi :: Denotes(spec, lo, hi) && lo <= |a.items| <= hi
  }

  predicate LeafAccepts(eng: Engine, e: Value, a: Value) {
    match LeafMatchType(e)
    case Regex(pattern) => eng.compiles(pattern) && eng.matches(pattern, Render(eng, a))
    case _ => e == a
  }

  // ---------- the verdict of the code ----------

  ghost predicate Accepts(eng: Engine, p: Flags, e: Value, a: Value)
    decreases Rank(e), e, 1
  {
    var mt := LeafMatchType(e);
    if mt.Length? then LengthAccepts(mt.spec, a)
    else if mt.Pure? && KindOf(e) != KindOf(a) then false
    else match a
         case Arr(items) =>
           var es := Elems(e);
           && |es| == |items|
           && if p.unordered then Greedy(Verdicts(eng, p, e, items), 0, Indices(|items|)).left == []
              else forall i | 0 <= i < |es| :: Accepts(eng, p, es[i], items[i])
         case Obj(fields) =>
           && e.Obj?
           && (p.disallowExtra ==> |e.fields| == |fields|)
           && forall k | k in e.fields :: k in fields && Accepts(eng, p, e.fields[k], fields[k])
         case _ => p.ignoreValues || LeafAccepts(eng, e, a)
  }

  /** The verdict on every element of e against every item. */
  ghost function Verdicts(eng: Engine, p: Flags, e: Value, items: seq<Value>): (m: Matrix)
    requires !LeafMatchType(e).Length?
    decreases Rank(e), e, 0
  {
    var es := Elems(e);
    seq(|es|, i requires 0 <= i < |es| =>
      seq(|items|, j requires 0 <= j < |items| => Accepts(eng, p, es[i], items[j])))
  }

  // ---------- what the documentation promises ----------

  /** Both are scalars of one type. */
  predicate SameScalarType(e: Value, a: Value) {
    || (e.Null? && a.Null?) || (e.Bool? && a.Bool?) || (e.Num? && a.Num?)
    || (e.Byte? && a.Byte?) || (e.Str? && a.Str?)
  }

  /** The actual value has what the expectation asks for; in unordered mode an array has it under some
      one-to-one assignment of its items. */
  ghost predicate Conforms(eng: Engine, p: Flags, e: Value, a: Value)
    decreases Rank(e), e, 1
  {
    match LeafMatchType(e)
    case Length(spec) => LengthAccepts(spec, a)
    case Regex(pattern) =>
      if a.Arr? then ItemsConform(eng, p, e, a.items)
      else Scalar(a) && (p.ignoreValues || (eng.compiles(pattern) && eng.matches(pattern, Render(eng, a))))
    case Pure =>
      match e
      case Arr(_) => a.Arr? && ItemsConform(eng, p, e, a.items)
      case Obj(fields) =>
        && a.Obj?
        && fields.Keys <= a.fields.Keys
        && (p.disallowExtra ==> fields.Keys == a.fields.Keys)
        && forall k | k in fields :: Conforms(eng, p, fields[k], a.fields[k])
      case _ => SameScalarType(e, a) && (p.ignoreValues || e == a)
  }

  ghost predicate ItemsConform(eng: Engine, p: Flags, e: Value, items: seq<Value>)
    requires !LeafMatchType(e).Length?
    decreases Rank(e), e, 0
  {
    var es := Elems(e);
    && |es| == |items|
    && if p.unordered then
         exists q | Bijection(q, |es|) :: forall i | 0 <= i < |es| :: Conforms(eng, p, es[i], items[q.to[i]])
       else
         forall i | 0 <= i < |es| :: Conforms(eng, p, es[i], items[i])
  }

  /** Equal up to permuting the items of arrays at every depth; with `shape`, scalars only agree in type. */
  ghost predicate Similar(shape: bool, e: Value, a: Value)
    decreases e
  {
    match e
    case Arr(es) =>
      && a.Arr? && |es| == |a.items|
      && exists q | Bijection(q, |es|) :: forall i | 0 <= i < |es| :: Similar(shape, es[i], a.items[q.to[i]])
    case Obj(fields) =>
      a.Obj? && fields.Keys == a.fields.Keys && forall k | k in fields :: Similar(shape, fields[k], a.fields[k])
    case _ => SameScalarType(e, a) && (shape || e == a)
  }
}
