/**
  Structured field and method descriptors (section 4.3 of the Java Virtual
  Machine Specification, SE 8) and their textual form.

  The rewrite pass manipulates descriptors as strings; this model keeps them
  structured and proves that the textual rendering is injective on
  well-formed descriptors, so comparing structured descriptors decides
  exactly what comparing the strings decides.
 */
module Descriptors {

  /** FieldType: a primitive (`B C D F I J S Z`), an object type `L<name>;` or an array `[<component>`. */
  datatype FieldType =
    | Base(code: char)
    | Object(internalName: string)
    | Array(component: FieldType)

  /** ReturnDescriptor: `V` or a field type. */
  datatype ReturnType = Void | Returns(t: FieldType)

  /** MethodDescriptor: `( {ParameterDescriptor} ) ReturnDescriptor`. */
  datatype MethodDesc = MethodDesc(params: seq<FieldType>, ret: ReturnType)

  predicate IsBaseCode(c: char) {
    c in "BCDFIJSZ"
  }

  /** Well-formed field types: known primitive codes, object names free of `;`. */
  predicate ValidField(t: FieldType) {
    match t
    case Base(c) => IsBaseCode(c)
    case Object(n) => ';' !in n
    case Array(c) => ValidField(c)
  }

  predicate ValidReturn(r: ReturnType) {
    r.Returns? ==> ValidField(r.t)
  }

  predicate ValidParams(ps: seq<FieldType>) {
    forall i :: 0 <= i < |ps| ==> ValidField(ps[i])
  }

  predicate ValidDesc(d: MethodDesc) {
    ValidParams(d.params) && ValidReturn(d.ret)
  }

  /** The descriptor of the object type with the given internal name (`Type.getObjectType`). */
  function ObjectType(internalName: string): FieldType {
    Object(internalName)
  }

  function FieldString(t: FieldType): (s: string)
    ensures |s| > 0
  {
    match t
    case Base(c) => [c]
    case Object(n) => "L" + n + ";"
    case Array(c) => "[" + FieldString(c)
  }

  function ParamsString(ps: seq<FieldType>): string {
    if |ps| == 0 then "" else FieldString(ps[0]) + ParamsString(ps[1..])
  }

  function ReturnString(r: ReturnType): string {
    match r
    case Void => "V"
    case Returns(t) => FieldString(t)
  }

  /** The textual method descriptor, e.g. `(ILjava/lang/String;)V`. */
  function DescString(d: MethodDesc): string {
    "(" + ParamsString(d.params) + ")" + ReturnString(d.ret)
  }

  /** Position of the first `c` in `s`, or `|s|` when there is none. */
  function IndexOfChar(s: string, c: char): (k: nat)
    ensures k <= |s|
  {
    if |s| == 0 || s[0] == c then 0 else 1 + IndexOfChar(s[1..], c)
  }

  lemma {:induction false} IndexOfCharAfter(n: string, c: char, x: string)
    requires c !in n
    ensures IndexOfChar(n + [c] + x, c) == |n|
    decreases |n|
  {
    if |n| > 0 {
      assert (n + [c] + x)[1..] == n[1..] + [c] + x;
      IndexOfCharAfter(n[1..], c, x);
    }
  }

  /** Two object names that are each followed by `;` can be told apart at the first `;`. */
  lemma SemicolonSplit(n: string, m: string, x: string, y: string)
    requires ';' !in n && ';' !in m
    requires n + ";" + x == m + ";" + y
    ensures n == m && x == y
  {
    var l := n + ";" + x;
    IndexOfCharAfter(n, ';', x);
    IndexOfCharAfter(m, ';', y);
    assert n == l[..|n|] == m;
    assert x == l[|n| + 1..] == y;
  }

  /** A well-formed parameter list never starts with the closing parenthesis. */
  lemma ParamsStringHead(ps: seq<FieldType>)
    requires ValidParams(ps)
    ensures |ps| > 0 ==> |ParamsString(ps)| > 0 && ParamsString(ps)[0] != ')'
  {
    if |ps| > 0 {
      assert ValidField(ps[0]);
    }
  }

  /** No well-formed field descriptor is a proper prefix of another. */
  lemma {:induction false} FieldStringPrefixFree(a: FieldType, b: FieldType, x: string, y: string)
    requires ValidField(a) && ValidField(b)
    requires FieldString(a) + x == FieldString(b) + y
    ensures a == b && x == y
    decreases a
  {
    var l := FieldString(a) + x;
    assert l[0] == FieldString(a)[0] == FieldString(b)[0];
    match a
    case Base(c) =>
      assert l == [c] + x;
      assert b.Base?;
      assert x == l[1..] == y;
    case Object(n) =>
      assert b.Object?;
      var m := b.internalName;
      {
        assert "L" + n + ";" + x == "L" + (n + ";" + x);
        assert "L" + m + ";" + y == "L" + (m + ";" + y);
        assert n + ";" + x == l[1..] == m + ";" + y;
        SemicolonSplit(n, m, x, y);
      }
    case Array(c) =>
      assert b.Array?;
      var e := b.component;
      {
        assert "[" + FieldString(c) + x == "[" + (FieldString(c) + x);
        assert "[" + FieldString(e) + y == "[" + (FieldString(e) + y);
        assert FieldString(c) + x == l[1..] == FieldString(e) + y;
        FieldStringPrefixFree(c, e, x, y);
      }
  }

  /** A parameter list is recovered from the text up to the closing parenthesis. */
  lemma {:induction false} ParamsStringPrefixFree(ps: seq<FieldType>, qs: seq<FieldType>, x: string, y: string)
    requires ValidParams(ps) && ValidParams(qs)
    requires ParamsString(ps) + ")" + x == ParamsString(qs) + ")" + y
    ensures ps == qs && x == y
    decreases |ps|
  {
    var l := ParamsString(ps) + ")" + x;
    ParamsStringHead(ps);
    ParamsStringHead(qs);
    assert |qs| > 0 ==> l[0] == ParamsString(qs)[0];
    assert |ps| > 0 ==> l[0] == ParamsString(ps)[0];
    assert |ps| == 0 <==> |qs| == 0;
    if |ps| == 0 {
      assert l == ")" + x;
      assert x == l[1..] == y;
    } else {
      assert ParamsString(ps) == FieldString(ps[0]) + ParamsString(ps[1..]);
      assert ParamsString(qs) == FieldString(qs[0]) + ParamsString(qs[1..]);
      assert ValidField(ps[0]) && ValidField(qs[0]);
      assert l == FieldString(ps[0]) + (ParamsString(ps[1..]) + ")" + x);
      assert l == FieldString(qs[0]) + (ParamsString(qs[1..]) + ")" + y);
      FieldStringPrefixFree(ps[0], qs[0], ParamsString(ps[1..]) + ")" + x, ParamsString(qs[1..]) + ")" + y);
      assert ValidParams(ps[1..]) && ValidParams(qs[1..]);
      ParamsStringPrefixFree(ps[1..], qs[1..], x, y);
      assert ps == [ps[0]] + ps[1..] && qs == [qs[0]] + qs[1..];
    }
  }

  /** Two well-formed descriptors are equal exactly when their texts are equal. */
  lemma {:induction false} DescStringInjective(d: MethodDesc, e: MethodDesc)
    requires ValidDesc(d) && ValidDesc(e)
    ensures DescString(d) == DescString(e) <==> d == e
  {
    if DescString(d) == DescString(e) {
      var l := DescString(d);
      assert ParamsString(d.params) + ")" + ReturnString(d.ret) == l[1..];
      assert ParamsString(e.params) + ")" + ReturnString(e.ret) == l[1..];
      ParamsStringPrefixFree(d.params, e.params, ReturnString(d.ret), ReturnString(e.ret));
      match d.ret
      case Void =>
        assert e.ret.Void?;
      case Returns(t) =>
        assert e.ret.Returns?;
        {
          assert FieldString(t) + "" == FieldString(e.ret.t) + "";
          FieldStringPrefixFree(t, e.ret.t, "", "");
        }
    }
  }
}
