/**
  Synthetic accessors: their descriptors, the insertion-ordered table from
  accessor handle to implementation handle, `getLambdaAccessMethod`, and the
  delegates emitted from the table at the end of the class.
 */
module Accessors {
  import opened Results
  import opened Descriptors
  import opened Names
  import opened Classfile
  import opened Visibility

  /**
    `getLambdaAccessMethodDesc`: a static implementation keeps its
    descriptor; a constructor becomes a factory returning the owner; any
    other kind takes the receiver, typed as the current class, first.
   */
  function AccessorDesc(className: string, impl: Handle): (d: MethodDesc)
    ensures impl.kind == InvokeStatic ==> d == impl.desc
    ensures impl.kind == NewInvokeSpecial ==>
              d.params == impl.desc.params && d.ret == Returns(ObjectType(impl.owner))
    ensures impl.kind != InvokeStatic && impl.kind != NewInvokeSpecial ==>
              |d.params| == |impl.desc.params| + 1 && d.params[0] == ObjectType(className)
              && d.params[1..] == impl.desc.params && d.ret == impl.desc.ret
  {
    if impl.kind == InvokeStatic then impl.desc
    else if impl.kind == NewInvokeSpecial then MethodDesc(impl.desc.params, Returns(ObjectType(impl.owner)))
    else MethodDesc([ObjectType(className)] + impl.desc.params, impl.desc.ret)
  }

  /** A well-formed implementation descriptor gives a well-formed accessor descriptor. */
  lemma AccessorDescValid(className: string, impl: Handle)
    requires ValidDesc(impl.desc) && ';' !in className && ';' !in impl.owner
    ensures ValidDesc(AccessorDesc(className, impl))
  {
    var d := AccessorDesc(className, impl);
    forall i | 0 <= i < |d.params|
      ensures ValidField(d.params[i])
    {
      if impl.kind != InvokeStatic && impl.kind != NewInvokeSpecial && i > 0 {
        assert d.params[i] == impl.desc.params[i - 1];
      }
    }
  }

  /**
    The accessor descriptor as text: unchanged for a static method, the
    parameter text kept and the return replaced by `L<owner>;` for a
    constructor, and `L<class>;` inserted right after `(` otherwise.
   */
  lemma AccessorDescText(className: string, impl: Handle)
    ensures var d := AccessorDesc(className, impl);
            var text := DescString(impl.desc);
            var k := |ParamsString(impl.desc.params)| + 2;
            && (impl.kind == InvokeStatic ==> DescString(d) == text)
            && (impl.kind == NewInvokeSpecial ==>
                  DescString(d)[..k] == text[..k] && DescString(d)[k..] == "L" + impl.owner + ";")
            && (impl.kind != InvokeStatic && impl.kind != NewInvokeSpecial ==>
                  DescString(d) == "(L" + className + ";" + text[1..])
  {
    var d := AccessorDesc(className, impl);
    var text := DescString(impl.desc);
    var k := |ParamsString(impl.desc.params)| + 2;
    if impl.kind == NewInvokeSpecial {
      assert DescString(d) == "(" + ParamsString(impl.desc.params) + ")" + ("L" + impl.owner + ";");
      assert text == "(" + ParamsString(impl.desc.params) + ")" + ReturnString(impl.desc.ret);
    } else if impl.kind != InvokeStatic {
      assert d.params == [ObjectType(className)] + impl.desc.params;
      assert ParamsString(d.params) == FieldString(ObjectType(className)) + ParamsString(impl.desc.params) by {
        assert d.params[1..] == impl.desc.params;
      }
      assert text[1..] == ParamsString(impl.desc.params) + ")" + ReturnString(impl.desc.ret);
    }
  }

  /** The insertion-ordered map from accessor handle to implementation handle. */
  type AccessorTable = seq<(Handle, Handle)>

  /** Position of `key` among the table's keys, or `|table|` when it is absent. */
  function KeyIndex(table: AccessorTable, key: Handle): (k: nat)
    ensures k <= |table|
    ensures forall j :: 0 <= j < k ==> table[j].0 != key
    ensures k < |table| ==> table[k].0 == key
  {
    if |table| == 0 || table[0].0 == key then 0 else 1 + KeyIndex(table[1..], key)
  }

  /**
    `LinkedHashMap.put`: a key already present keeps its position and takes
    the new value; a new key is appended.
   */
  function Put(table: AccessorTable, key: Handle, value: Handle): (t: AccessorTable)
    ensures KeyIndex(table, key) == |table| ==> t == table + [(key, value)]
    ensures KeyIndex(table, key) < |table| ==> t == table[KeyIndex(table, key) := (key, value)]
  {
    if |table| == 0 then [(key, value)]
    else if table[0].0 == key then
      assert [(key, value)] + table[1..] == table[0 := (key, value)];
      [(key, value)] + table[1..]
    else
      var rest := Put(table[1..], key, value);
      var k := KeyIndex(table[1..], key);
      assert k < |table[1..]| ==> [table[0]] + table[1..][k := (key, value)] == table[k + 1 := (key, value)];
      assert [table[0]] + (table[1..] + [(key, value)]) == table + [(key, value)];
      [table[0]] + rest
  }

  /** The `k`-th accessor the current class gets for `impl`. */
  function AccessorFor(className: string, k: nat, impl: Handle): Handle {
    Handle(InvokeStatic, className, AccessorName(k), AccessorDesc(className, impl))
  }

  /** Entry `i` of the table is the `i`-th accessor of the class, for the entry's implementation. */
  ghost predicate WellNumbered(className: string, table: AccessorTable) {
    forall i :: 0 <= i < |table| ==> table[i].0 == AccessorFor(className, i, table[i].1)
  }

  /** A well-numbered table never holds the same accessor twice. */
  lemma WellNumberedKeysDistinct(className: string, table: AccessorTable)
    requires WellNumbered(className, table)
    ensures forall i, j :: 0 <= i < j < |table| ==> table[i].0 != table[j].0
  {
    forall i, j | 0 <= i < j < |table|
      ensures table[i].0 != table[j].0
    {
      AccessorNameInjective(i, j);
    }
  }

  /** The next accessor name is not yet a key of a well-numbered table. */
  lemma NextAccessorIsFresh(className: string, table: AccessorTable, impl: Handle)
    requires WellNumbered(className, table)
    ensures forall i :: 0 <= i < |table| ==> table[i].0 != AccessorFor(className, |table|, impl)
  {
    forall i | 0 <= i < |table|
      ensures table[i].0 != AccessorFor(className, |table|, impl)
    {
      AccessorNameInjective(i, |table|);
    }
  }

  /** The handle to call and the table after the call. */
  datatype Resolved = Resolved(handle: Handle, table: AccessorTable)

  /**
    `getLambdaAccessMethod`: the implementation itself when it is visible,
    otherwise a fresh accessor recorded in the table.
   */
  function GetLambdaAccessMethod(ctx: ClassContext, index: MethodIndex, table: AccessorTable, impl: Handle)
    : (r: Result<Resolved, Error>)
    ensures r.Err? <==> NeedsAccessor(ctx, index, impl).Err?
    ensures r.Err? ==> r.error == NeedsAccessor(ctx, index, impl).error
    ensures NeedsAccessor(ctx, index, impl) == Ok(false) ==> r == Ok(Resolved(impl, table))
    ensures NeedsAccessor(ctx, index, impl) == Ok(true) ==>
              var acc := AccessorFor(ctx.name, |table|, impl);
              r == Ok(Resolved(acc, Put(table, acc, impl)))
    ensures NeedsAccessor(ctx, index, impl) == Ok(true) && WellNumbered(ctx.name, table) ==>
              var acc := AccessorFor(ctx.name, |table|, impl);
              r == Ok(Resolved(acc, table + [(acc, impl)]))
    ensures r.Ok? && WellNumbered(ctx.name, table) ==> WellNumbered(ctx.name, r.value.table)
  {
    match NeedsAccessor(ctx, index, impl)
    case Err(e) => Err(e)
    case Ok(false) => Ok(Resolved(impl, table))
    case Ok(true) =>
      var acc := Handle(InvokeStatic, ctx.name, AccessorName(|table|), AccessorDesc(ctx.name, impl));
      assert WellNumbered(ctx.name, table) ==> forall i :: 0 <= i < |table| ==> table[i].0 != acc by {
        if WellNumbered(ctx.name, table) {
          NextAccessorIsFresh(ctx.name, table, impl);
        }
      }
      Ok(Resolved(acc, Put(table, acc, impl)))
  }

  /**
    Two call sites with the same implementation that needs an accessor get
    two entries, under two different accessors: the table never deduplicates.
   */
  lemma SameImplTwice(ctx: ClassContext, index: MethodIndex, table: AccessorTable, impl: Handle)
    requires WellNumbered(ctx.name, table)
    requires NeedsAccessor(ctx, index, impl) == Ok(true)
    ensures var first := GetLambdaAccessMethod(ctx, index, table, impl).value;
            var second := GetLambdaAccessMethod(ctx, index, first.table, impl).value;
            && |second.table| == |table| + 2
            && second.table[..|table|] == table
            && second.table[|table|] == (first.handle, impl)
            && second.table[|table| + 1] == (second.handle, impl)
            && first.handle != second.handle
  {
    AccessorNameInjective(|table|, |table| + 1);
  }

  /** The access flags of every emitted delegate. */
  const DelegateAccess: Flags := ACC_STATIC | ACC_SYNTHETIC

  /** `visitEnd`: one static synthetic delegate per table entry, in table order, then the end. */
  function VisitEnd(table: AccessorTable): (events: seq<ClassEvent>)
    ensures |events| == |table| + 1
    ensures forall i :: 0 <= i < |table| ==> events[i] == Delegate(DelegateAccess, table[i].0, table[i].1)
    ensures events[|table|] == End
  {
    if |table| == 0 then [End]
    else [Delegate(DelegateAccess, table[0].0, table[0].1)] + VisitEnd(table[1..])
  }
}
