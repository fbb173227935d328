/** Cairo types with their values (crates/dojo/types/src/schema.rs). */
module Schema {
  import opened Wrappers
  import opened Felts
  import opened Primitives

  /** A named component: a struct member has a key flag, an enum option has none. */
  datatype Named<+K> = Named(name: string, key: K, ty: Ty)

  type Member = Named<bool>

  type EnumOption = Named<()>

  datatype Ty =
    | Prim(primitive: Primitive)
    | Struct(name: string, children: seq<Member>)
    | Enum(name: string, option: Option<Byte>, options: seq<EnumOption>)
    | Tuple(items: seq<Ty>)
    | Array(items: seq<Ty>)
    | ByteArray(bytes: string)

  /**
   `v` is a value of the schema `t`: the same tree, with any primitive values, any number of
   array items built from the one item of the template, and, in an enum, a chosen option whose
   siblings are those of the template.
   */
  ghost predicate Fits(v: Ty, t: Ty)
    decreases v
  {
    match (v, t)
    case (Prim(p), Prim(q)) => p.kind == q.kind && p.value.Some?
    case (Struct(n, cs), Struct(m, ds)) =>
      n == m && |cs| == |ds| &&
      forall i :: 0 <= i < |cs| ==> cs[i].name == ds[i].name && cs[i].key == ds[i].key && Fits(cs[i].ty, ds[i].ty)
    case (Enum(n, o, cs), Enum(m, _, ds)) =>
      n == m && |cs| == |ds| && o.Some? && o.value < |cs| &&
      forall i :: 0 <= i < |cs| ==>
        cs[i].name == ds[i].name && if i == o.value then Fits(cs[i].ty, ds[i].ty) else cs[i] == ds[i]
    case (Tuple(xs), Tuple(ys)) =>
      |xs| == |ys| && forall i :: 0 <= i < |xs| ==> Fits(xs[i], ys[i])
    case (Array(xs), Array(ys)) =>
      |ys| == 1 && |xs| < 0x1_0000_0000 && forall i :: 0 <= i < |xs| ==> Fits(xs[i], ys[0])
    case (ByteArray(_), ByteArray(_)) => true
    case _ => false
  }
}
