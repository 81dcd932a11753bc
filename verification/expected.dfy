/**
  The accessor table a class ends up with, stated without running the pass:
  one entry per lambda call site (in a kept method) whose implementation
  needs an accessor, numbered from 0 in call-site order, with repetitions.
 */
module Expected {
  import opened Results
  import opened Classfile
  import opened Visibility
  import opened Accessors
  import opened Rewrite

  /** The implementation handles of the lambda call sites of a body, in order. */
  function CallSiteImpls(env: Env, body: seq<Insn>): seq<Handle>
    decreases |body|
  {
    if |body| == 0 then []
    else
      (if IsLambdaCallSite(env, body[0]) && ImplOf(body[0]).Some? then [ImplOf(body[0]).value] else [])
      + CallSiteImpls(env, body[1..])
  }

  /** The implementation handles of the lambda call sites of every kept method, in order. */
  function ClassCallSiteImpls(env: Env, methods: seq<MethodDef>): seq<Handle>
    decreases |methods|
  {
    if |methods| == 0 then []
    else
      (if env.isDeserializationHook(methods[0].access, methods[0].name, methods[0].desc) then []
       else CallSiteImpls(env, methods[0].body))
      + ClassCallSiteImpls(env, methods[1..])
  }

  /** The implementations, in order and with repetitions, that need an accessor. */
  function NeedingAccessors(ctx: ClassContext, index: MethodIndex, impls: seq<Handle>): seq<Handle>
    decreases |impls|
  {
    if |impls| == 0 then []
    else
      (if NeedsAccessor(ctx, index, impls[0]) == Ok(true) then [impls[0]] else [])
      + NeedingAccessors(ctx, index, impls[1..])
  }

  /** Accessors numbered from `start` for the given implementations. */
  function Numbered(className: string, start: nat, impls: seq<Handle>): (t: AccessorTable)
    ensures |t| == |impls|
    ensures forall i :: 0 <= i < |impls| ==> t[i] == (AccessorFor(className, start + i, impls[i]), impls[i])
    decreases |impls|
  {
    if |impls| == 0 then []
    else [(AccessorFor(className, start, impls[0]), impls[0])] + Numbered(className, start + 1, impls[1..])
  }

  lemma NumberedAppend(className: string, start: nat, xs: seq<Handle>, ys: seq<Handle>)
    ensures Numbered(className, start, xs) + Numbered(className, start + |xs|, ys)
            == Numbered(className, start, xs + ys)
  {
    var a := Numbered(className, start, xs);
    var b := Numbered(className, start + |xs|, ys);
    var c := Numbered(className, start, xs + ys);
    forall i | 0 <= i < |c|
      ensures (a + b)[i] == c[i]
    {
      if i < |xs| {
        assert (xs + ys)[i] == xs[i];
      } else {
        assert (xs + ys)[i] == ys[i - |xs|];
        assert b[i - |xs|] == (AccessorFor(className, start + i, ys[i - |xs|]), ys[i - |xs|]);
      }
    }
  }

  /** Appending accessors numbered from the table size keeps the table well numbered. */
  lemma WellNumberedExtend(className: string, table: AccessorTable, impls: seq<Handle>)
    requires WellNumbered(className, table)
    ensures WellNumbered(className, table + Numbered(className, |table|, impls))
  {
    var t := table + Numbered(className, |table|, impls);
    forall i | 0 <= i < |t|
      ensures t[i].0 == AccessorFor(className, i, t[i].1)
    {
      if i >= |table| {
        assert t[i] == Numbered(className, |table|, impls)[i - |table|];
      }
    }
  }

  lemma {:induction false} NeedingAccessorsAppend(ctx: ClassContext, index: MethodIndex, xs: seq<Handle>, ys: seq<Handle>)
    ensures NeedingAccessors(ctx, index, xs + ys) == NeedingAccessors(ctx, index, xs) + NeedingAccessors(ctx, index, ys)
    decreases |xs|
  {
    if |xs| > 0 {
      assert (xs + ys)[1..] == xs[1..] + ys;
      NeedingAccessorsAppend(ctx, index, xs[1..], ys);
    } else {
      assert xs + ys == ys;
    }
  }

  /** One converted instruction appends the accessor its call site needs, if any. */
  lemma ConvertInsnTable(env: Env, ctx: ClassContext, table: AccessorTable, insn: Insn)
    requires WellNumbered(ctx.name, table)
    requires ConvertInsn(env, ctx, table, insn).Ok?
    ensures ConvertInsn(env, ctx, table, insn).value.table
            == table + Numbered(ctx.name, |table|, NeedingAccessors(ctx, env.index, CallSiteImpls(env, [insn])))
  {
    assert [insn][1..] == [];
    if IsLambdaCallSite(env, insn) {
      var impl := ImplOf(insn).value;
      assert CallSiteImpls(env, [insn]) == [impl];
      assert [impl][1..] == [];
      if NeedsAccessor(ctx, env.index, impl) == Ok(true) {
        assert NeedingAccessors(ctx, env.index, [impl]) == [impl];
      } else {
        assert NeedingAccessors(ctx, env.index, [impl]) == [];
      }
    } else {
      assert CallSiteImpls(env, [insn]) == [];
    }
  }

  lemma CallSiteImplsCons(env: Env, body: seq<Insn>)
    requires |body| > 0
    ensures CallSiteImpls(env, body) == CallSiteImpls(env, [body[0]]) + CallSiteImpls(env, body[1..])
  {
    assert [body[0]][1..] == [];
  }

  /** Numbered runs chain: `table + run(xs)` followed by the next run is `table + run(xs + ys)`. */
  lemma ChainRuns(className: string, table: AccessorTable, xs: seq<Handle>, ys: seq<Handle>, mid: AccessorTable, t: AccessorTable)
    requires mid == table + Numbered(className, |table|, xs)
    requires t == mid + Numbered(className, |mid|, ys)
    ensures t == table + Numbered(className, |table|, xs + ys)
  {
    var a := Numbered(className, |table|, xs);
    var b := Numbered(className, |table| + |xs|, ys);
    assert t == (table + a) + b;
    ConcatAssoc(table, a, b);
    NumberedAppend(className, |table|, xs, ys);
  }

  /**
    Associativity of concatenation, stated generically: proving it at the
    element type `(Handle, Handle)` inside `ChainRuns` drags the handle
    axioms into the sequence reasoning and is far costlier.
   */
  lemma ConcatAssoc<T>(a: seq<T>, b: seq<T>, c: seq<T>)
    ensures (a + b) + c == a + (b + c)
  {
  }

  /**
    Converting a body appends one numbered accessor per lambda call site that
    needs one, in call-site order, starting from the current table size.
   */
  lemma {:induction false} ConvertBodyTable(env: Env, ctx: ClassContext, table: AccessorTable, body: seq<Insn>)
    requires WellNumbered(ctx.name, table)
    requires ConvertBody(env, ctx, table, body).Ok?
    ensures ConvertBody(env, ctx, table, body).value.table
            == table + Numbered(ctx.name, |table|, NeedingAccessors(ctx, env.index, CallSiteImpls(env, body)))
    decreases |body|
  {
    if |body| == 0 {
      assert Numbered(ctx.name, |table|, []) == [];
    } else {
      var mid := ConvertInsn(env, ctx, table, body[0]).value.table;
      var t := ConvertBody(env, ctx, table, body).value.table;
      assert ConvertBody(env, ctx, mid, body[1..]).Ok? && ConvertBody(env, ctx, mid, body[1..]).value.table == t;
      var nHere := NeedingAccessors(ctx, env.index, CallSiteImpls(env, [body[0]]));
      var nThere := NeedingAccessors(ctx, env.index, CallSiteImpls(env, body[1..]));
      ConvertInsnTable(env, ctx, table, body[0]);
      WellNumberedExtend(ctx.name, table, nHere);
      ConvertBodyTable(env, ctx, mid, body[1..]);
      ChainRuns(ctx.name, table, nHere, nThere, mid, t);
      CallSiteImplsCons(env, body);
      NeedingAccessorsAppend(ctx, env.index, CallSiteImpls(env, [body[0]]), CallSiteImpls(env, body[1..]));
    }
  }

  /** One visited method appends the accessors of its call sites, or nothing when it is a hook. */
  lemma VisitMethodTable(env: Env, ctx: ClassContext, table: AccessorTable, m: MethodDef)
    requires WellNumbered(ctx.name, table)
    requires VisitMethod(env, ctx, table, m).Ok?
    ensures VisitMethod(env, ctx, table, m).value.table
            == table + Numbered(ctx.name, |table|, NeedingAccessors(ctx, env.index, ClassCallSiteImpls(env, [m])))
  {
    assert [m][1..] == [];
    if env.isDeserializationHook(m.access, m.name, m.desc) {
      assert ClassCallSiteImpls(env, [m]) == [];
      assert Numbered(ctx.name, |table|, []) == [];
    } else {
      assert ClassCallSiteImpls(env, [m]) == CallSiteImpls(env, m.body);
      ConvertBodyTable(env, ctx, table, m.body);
    }
  }

  lemma ClassCallSiteImplsCons(env: Env, methods: seq<MethodDef>)
    requires |methods| > 0
    ensures ClassCallSiteImpls(env, methods) == ClassCallSiteImpls(env, [methods[0]]) + ClassCallSiteImpls(env, methods[1..])
  {
    assert [methods[0]][1..] == [];
  }

  /** Visiting the methods appends the accessors of every kept method's call sites, in order. */
  lemma {:induction false} VisitMethodsTable(env: Env, ctx: ClassContext, table: AccessorTable, methods: seq<MethodDef>)
    requires WellNumbered(ctx.name, table)
    requires VisitMethods(env, ctx, table, methods).Ok?
    ensures VisitMethods(env, ctx, table, methods).value.table
            == table + Numbered(ctx.name, |table|, NeedingAccessors(ctx, env.index, ClassCallSiteImpls(env, methods)))
    decreases |methods|
  {
    if |methods| == 0 {
      assert Numbered(ctx.name, |table|, []) == [];
    } else {
      var mid := VisitMethod(env, ctx, table, methods[0]).value.table;
      var t := VisitMethods(env, ctx, table, methods).value.table;
      assert VisitMethods(env, ctx, mid, methods[1..]).Ok? && VisitMethods(env, ctx, mid, methods[1..]).value.table == t;
      var nHere := NeedingAccessors(ctx, env.index, ClassCallSiteImpls(env, [methods[0]]));
      var nThere := NeedingAccessors(ctx, env.index, ClassCallSiteImpls(env, methods[1..]));
      VisitMethodTable(env, ctx, table, methods[0]);
      WellNumberedExtend(ctx.name, table, nHere);
      VisitMethodsTable(env, ctx, mid, methods[1..]);
      ChainRuns(ctx.name, table, nHere, nThere, mid, t);
      ClassCallSiteImplsCons(env, methods);
      NeedingAccessorsAppend(ctx, env.index, ClassCallSiteImpls(env, [methods[0]]), ClassCallSiteImpls(env, methods[1..]));
    }
  }

  /** In `header + methods + VisitEnd(t)`, the flushed table sits right after the methods. */
  lemma DelegatesFollow(out: seq<ClassEvent>, header: ClassEvent, methods: seq<ClassEvent>, t: AccessorTable)
    requires out == [header] + methods + VisitEnd(t)
    ensures |out| == 1 + |methods| + |t| + 1
    ensures forall i :: 0 <= i < |t| ==> out[1 + |methods| + i] == VisitEnd(t)[i]
  {
  }

  /**
    After the kept methods, the pass emits exactly one static synthetic
    delegate per call site needing an accessor, numbered from 0 in call-site
    order, and then the end of the class.
   */
  lemma BackportDelegates(env: Env, cls: ClassDef)
    requires Backport(env, cls).Ok?
    ensures var out := Backport(env, cls).value;
            var needing := NeedingAccessors(ClassContext(cls.access, cls.name), env.index, ClassCallSiteImpls(env, cls.methods));
            var k := 1 + |KeptMethods(env, cls.methods)|;
            && |out| == k + |needing| + 1
            && (forall i :: 0 <= i < |needing| ==>
                  out[k + i] == Delegate(DelegateAccess, AccessorFor(cls.name, i, needing[i]), needing[i]))
  {
    var ctx := ClassContext(cls.access, cls.name);
    var needing := NeedingAccessors(ctx, env.index, ClassCallSiteImpls(env, cls.methods));
    BackportUnfold(env, cls);
    var visited := VisitMethods(env, ctx, [], cls.methods).value;
    VisitMethodsTable(env, ctx, [], cls.methods);
    VisitMethodsShape(env, ctx, [], cls.methods);
    var t := visited.table;
    assert t == Numbered(cls.name, 0, needing) by {
      assert [] + Numbered(cls.name, 0, needing) == Numbered(cls.name, 0, needing);
    }
    DelegatesFollow(Backport(env, cls).value, Header(cls.access, cls.name), visited.value, t);
    forall i | 0 <= i < |needing|
      ensures t[i] == (AccessorFor(cls.name, i, needing[i]), needing[i])
    {
      assert t[i] == (AccessorFor(cls.name, 0 + i, needing[i]), needing[i]);
    }
  }
}
