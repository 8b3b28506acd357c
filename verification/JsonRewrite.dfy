/** Replacing strings in a JSON tree, one at a time and all at once (body.rs). */
module JsonRewrite {
  import opened Text
  import opened Json

  /** The tree with the string at a place replaced; anything else there is left alone. */
  function SetString(v: Value, p: Place, s: string): Value {
    if p == [] then (if v.Str? then Str(s) else v)
    else match (v, p[0])
      case (Arr(elems), Index(i)) =>
        if i < |elems| then Arr(elems[i := SetString(elems[i], p[1..], s)]) else v
      case (Obj(fields), Key(k)) =>
        var j := FieldIndex(fields, k);
        if j < |fields| then Obj(fields[j := Field(fields[j].key, SetString(fields[j].value, p[1..], s))]) else v
      case _ => v
  }

  /** The tree with every string whose place is in m replaced, all at once; v itself is at base. */
  function Rewrite(v: Value, base: Place, m: map<Place, string>): Value {
    match v
    case Str(s) => if base in m then Str(m[base]) else v
    case Arr(elems) =>
      Arr(seq(|elems|, i requires 0 <= i < |elems| => Rewrite(elems[i], base + [Index(i)], m)))
    case Obj(fields) =>
      Obj(seq(|fields|, i requires 0 <= i < |fields| =>
                Field(fields[i].key, Rewrite(fields[i].value, base + [Key(fields[i].key)], m))))
    case _ => v
  }

  function StringAt(v: Value, p: Place): Option<string> {
    match Locate(v, p)
    case Some(Str(s)) => Some(s)
    case _ => None
  }

  lemma {:induction false} RewriteNothing(v: Value, base: Place)
    ensures Rewrite(v, base, map[]) == v
  {
    match v {
      case Arr(elems) =>
        forall i | 0 <= i < |elems|
          ensures Rewrite(elems[i], base + [Index(i)], map[]) == elems[i]
        {
          RewriteNothing(elems[i], base + [Index(i)]);
        }
      case Obj(fields) =>
        forall i | 0 <= i < |fields|
          ensures Rewrite(fields[i].value, base + [Key(fields[i].key)], map[]) == fields[i].value
        {
          RewriteNothing(fields[i].value, base + [Key(fields[i].key)]);
        }
        assert Rewrite(v, base, map[]).fields == fields;
      case _ =>
    }
  }

  lemma PrefixSegment(base: Place, seg: Segment, p: Place)
    ensures base + [seg] <= p ==> base <= p && |p| > |base| && p[|base|] == seg
  {
    if base + [seg] <= p {
      assert p[..|base| + 1] == base + [seg];
      assert p[..|base|] == base && p[|base|] == seg;
    }
  }

  /** A new entry for a place outside a subtree does not touch it. */
  lemma {:induction false} RewriteElsewhere(v: Value, base: Place, m: map<Place, string>, p: Place, x: string)
    requires !(base <= p)
    ensures Rewrite(v, base, m[p := x]) == Rewrite(v, base, m)
  {
    match v {
      case Arr(elems) =>
        forall i | 0 <= i < |elems|
          ensures Rewrite(elems[i], base + [Index(i)], m[p := x]) == Rewrite(elems[i], base + [Index(i)], m)
        {
          PrefixSegment(base, Index(i), p);
          RewriteElsewhere(elems[i], base + [Index(i)], m, p, x);
        }
      case Obj(fields) =>
        forall i | 0 <= i < |fields|
          ensures var b := base + [Key(fields[i].key)];
                  Rewrite(fields[i].value, b, m[p := x]) == Rewrite(fields[i].value, b, m)
        {
          PrefixSegment(base, Key(fields[i].key), p);
          RewriteElsewhere(fields[i].value, base + [Key(fields[i].key)], m, p, x);
        }
      case _ =>
    }
  }

  lemma {:induction false} FieldIndexOfSameKeys(f: seq<Field>, g: seq<Field>, key: string)
    requires |f| == |g| && forall i | 0 <= i < |f| :: f[i].key == g[i].key
    ensures FieldIndex(f, key) == FieldIndex(g, key)
  {
    if f != [] {
      FieldIndexOfSameKeys(f[1..], g[1..], key);
    }
  }

  lemma ChildOfRewrite(v: Value, base: Place, m: map<Place, string>, seg: Segment)
    ensures Child(Rewrite(v, base, m), seg)
            == match Child(v, seg) case None => None case Some(w) => Some(Rewrite(w, base + [seg], m))
  {
    match v {
      case Obj(fields) =>
        if seg.Key? {
          FieldIndexOfSameKeys(fields, Rewrite(v, base, m).fields, seg.key);
        }
      case _ =>
    }
  }

  /** Whatever a place leads to in the tree, it leads to its rewritten form afterwards. */
  lemma {:induction false} LocateInRewrite(v: Value, base: Place, m: map<Place, string>, q: Place)
    ensures Locate(Rewrite(v, base, m), q)
            == match Locate(v, q) case None => None case Some(w) => Some(Rewrite(w, base + q, m))
    decreases |q|
  {
    if q == [] {
      assert base + q == base;
    } else {
      ChildOfRewrite(v, base, m, q[0]);
      match Child(v, q[0])
      case None =>
      case Some(w) =>
        LocateInRewrite(w, base + [q[0]], m, q[1..]);
        assert base + [q[0]] + q[1..] == base + q;
    }
  }

  /** The strings of a rewritten tree: the new ones where the map has them, the old ones elsewhere. */
  lemma StringInRewrite(v: Value, m: map<Place, string>, p: Place)
    ensures StringAt(Rewrite(v, [], m), p)
            == match StringAt(v, p) case None => None case Some(s) => Some(if p in m then m[p] else s)
  {
    LocateInRewrite(v, [], m, p);
    assert [] + p == p;
  }

  lemma SiblingIsElsewhere(base: Place, a: Segment, b: Segment, rest: Place)
    requires a != b
    ensures !(base + [a] <= base + [b] + rest)
  {
    var p := base + [b] + rest;
    assert p[|base|] == b;
    PrefixSegment(base, a, p);
  }

  lemma OtherElemsStay(elems: seq<Value>, base: Place, m: map<Place, string>, i: nat, p: Place, rest: Place, x: string)
    requires i < |elems| && p == base + [Index(i)] + rest
    ensures forall k | 0 <= k < |elems| && k != i ::
              Rewrite(elems[k], base + [Index(k)], m[p := x]) == Rewrite(elems[k], base + [Index(k)], m)
  {
    forall k | 0 <= k < |elems| && k != i
      ensures Rewrite(elems[k], base + [Index(k)], m[p := x]) == Rewrite(elems[k], base + [Index(k)], m)
    {
      SiblingIsElsewhere(base, Index(k), Index(i), rest);
      RewriteElsewhere(elems[k], base + [Index(k)], m, p, x);
    }
  }

  lemma OneDiffers<T>(before: seq<T>, after: seq<T>, j: nat, x: T)
    requires |before| == |after| && j < |before| && after[j] == x
    requires forall k | 0 <= k < |before| && k != j :: after[k] == before[k]
    ensures after == before[j := x]
  {
  }

  lemma SetInElem(elems: seq<Value>, i: nat, rest: Place, x: string)
    requires i < |elems|
    ensures SetString(Arr(elems), [Index(i)] + rest, x) == Arr(elems[i := SetString(elems[i], rest, x)])
  {
    assert ([Index(i)] + rest)[1..] == rest;
  }

  lemma SetInField(fields: seq<Field>, j: nat, rest: Place, x: string)
    requires DistinctKeys(fields) && j < |fields|
    ensures SetString(Obj(fields), [Key(fields[j].key)] + rest, x)
            == Obj(fields[j := Field(fields[j].key, SetString(fields[j].value, rest, x))])
  {
    FieldIndexOfDistinct(fields, j);
    assert ([Key(fields[j].key)] + rest)[1..] == rest;
  }

  lemma RewriteElem(elems: seq<Value>, base: Place, m: map<Place, string>, i: nat, rest: Place, x: string)
    requires i < |elems|
    requires Rewrite(elems[i], base + [Index(i)], m[base + [Index(i)] + rest := x])
             == SetString(Rewrite(elems[i], base + [Index(i)], m), rest, x)
    ensures Rewrite(Arr(elems), base, m[base + [Index(i)] + rest := x])
            == SetString(Rewrite(Arr(elems), base, m), [Index(i)] + rest, x)
  {
    var p := base + [Index(i)] + rest;
    var before, after := Rewrite(Arr(elems), base, m).elems, Rewrite(Arr(elems), base, m[p := x]).elems;
    OtherElemsStay(elems, base, m, i, p, rest, x);
    OneDiffers(before, after, i, SetString(before[i], rest, x));
    SetInElem(before, i, rest, x);
  }

  lemma OtherFieldsStay(fields: seq<Field>, base: Place, m: map<Place, string>, j: nat, p: Place, rest: Place, x: string)
    requires DistinctKeys(fields) && j < |fields| && p == base + [Key(fields[j].key)] + rest
    ensures forall k | 0 <= k < |fields| && k != j ::
              Rewrite(fields[k].value, base + [Key(fields[k].key)], m[p := x])
              == Rewrite(fields[k].value, base + [Key(fields[k].key)], m)
  {
    forall k | 0 <= k < |fields| && k != j
      ensures Rewrite(fields[k].value, base + [Key(fields[k].key)], m[p := x])
              == Rewrite(fields[k].value, base + [Key(fields[k].key)], m)
    {
      SiblingIsElsewhere(base, Key(fields[k].key), Key(fields[j].key), rest);
      RewriteElsewhere(fields[k].value, base + [Key(fields[k].key)], m, p, x);
    }
  }

  lemma RewriteField(fields: seq<Field>, base: Place, m: map<Place, string>, j: nat, rest: Place, x: string)
    requires DistinctKeys(fields) && j < |fields|
    requires var b := base + [Key(fields[j].key)];
             Rewrite(fields[j].value, b, m[b + rest := x]) == SetString(Rewrite(fields[j].value, b, m), rest, x)
    ensures Rewrite(Obj(fields), base, m[base + [Key(fields[j].key)] + rest := x])
            == SetString(Rewrite(Obj(fields), base, m), [Key(fields[j].key)] + rest, x)
  {
    var p := base + [Key(fields[j].key)] + rest;
    var before, after := Rewrite(Obj(fields), base, m).fields, Rewrite(Obj(fields), base, m[p := x]).fields;
    OtherFieldsStay(fields, base, m, j, p, rest, x);
    OneDiffers(before, after, j, Field(before[j].key, SetString(before[j].value, rest, x)));
    SetInField(before, j, rest, x);
  }

  /** Setting a string changes nothing but the child it goes through. */
  lemma ChildOfSet(v: Value, p: Place, x: string, seg: Segment)
    requires p != []
    ensures Child(SetString(v, p, x), seg)
            == match Child(v, seg)
               case None => None
               case Some(w) => Some(if seg == p[0] then SetString(w, p[1..], x) else w)
  {
    match (v, p[0]) {
      case (Obj(fields), Key(k)) =>
        if seg.Key? {
          FieldIndexOfSameKeys(fields, SetString(v, p, x).fields, seg.key);
        }
      case _ =>
    }
  }

  /** Setting the string at one place leaves every other place alone, in any tree. */
  lemma {:induction false} SetElsewhere(v: Value, p: Place, x: string, q: Place)
    ensures StringAt(SetString(v, p, x), q).Some? <==> StringAt(v, q).Some?
    ensures p != q ==> StringAt(SetString(v, p, x), q) == StringAt(v, q)
    decreases |p|
  {
    if p != [] && q != [] {
      ChildOfSet(v, p, x, q[0]);
      if q[0] == p[0] && Child(v, q[0]).Some? {
        SetElsewhere(Child(v, q[0]).value, p[1..], x, q[1..]);
        assert p != q ==> p[1..] != q[1..] by {
          assert p == [p[0]] + p[1..] && q == [q[0]] + q[1..];
        }
      }
    }
  }

  lemma {:induction false} SetThere(v: Value, p: Place, x: string)
    requires StringAt(v, p).Some?
    ensures StringAt(SetString(v, p, x), p) == Some(x)
    decreases |p|
  {
    if p != [] {
      ChildOfSet(v, p, x, p[0]);
      SetThere(Child(v, p[0]).value, p[1..], x);
    }
  }

  lemma DistinctChild(v: Value, seg: Segment)
    requires DistinctTree(v) && Child(v, seg).Some?
    ensures DistinctTree(Child(v, seg).value)
  {
  }

  /** One more entry in the map is one string set in the rewritten tree. */
  lemma {:induction false} RewriteOneMore(v: Value, base: Place, m: map<Place, string>, q: Place, x: string)
    requires DistinctTree(v) && StringAt(v, q).Some?
    ensures Rewrite(v, base, m[base + q := x]) == SetString(Rewrite(v, base, m), q, x)
    decreases |q|
  {
    if q == [] {
      assert base + q == base;
    } else {
      var seg, rest := q[0], q[1..];
      assert base + q == base + [seg] + rest && q == [seg] + rest;
      DistinctChild(v, seg);
      RewriteOneMore(Child(v, seg).value, base + [seg], m, rest, x);
      match v {
        case Arr(elems) => RewriteElem(elems, base, m, seg.index, rest, x);
        case Obj(fields) => RewriteField(fields, base, m, FieldIndex(fields, seg.key), rest, x);
      }
    }
  }
}
