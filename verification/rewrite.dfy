/**
  The per-class pass: drops deserialization hooks, replaces every lambda
  metafactory `invokedynamic` with one `invokestatic` of the factory the
  reifier generates, and appends the accessor delegates at the end.

  The collaborators the pass calls but does not define are fields of `Env`.
 */
module Rewrite {
  import opened Results
  import opened Descriptors
  import opened Names
  import opened Classfile
  import opened Visibility
  import opened Accessors

  /** What `LambdaReifier.reifyLambdaClass` is given. */
  datatype ReifyRequest = ReifyRequest(
    impl: Handle, accessor: Handle, invoker: string,
    invokedName: string, invokedType: MethodDesc, bsm: Handle, bsmArgs: seq<BsmArg>)

  /** The static factory method of a generated lambda class. */
  datatype FactoryMethod = FactoryMethod(owner: string, name: string, desc: MethodDesc)

  /**
    The collaborators of the pass: the method index, the owner of the lambda
    metafactory bootstrap method, the deserialization-hook test, which binary
    class names the context class loader can load, and the reifier (whose
    failure is reported by its message).
   */
  datatype Env = Env(
    index: MethodIndex,
    metafactory: string,
    isDeserializationHook: (Flags, string, MethodDesc) -> bool,
    canLoad: string -> bool,
    reify: ReifyRequest -> Result<FactoryMethod, string>)

  /** A value computed by the pass together with the accessor table after it. */
  datatype Step<T> = Step(value: T, table: AccessorTable)

  /** An `invokedynamic` whose bootstrap method belongs to the lambda metafactory. */
  predicate IsLambdaCallSite(env: Env, insn: Insn) {
    insn.InvokeDynamic? && insn.bsm.owner == env.metafactory
  }

  /** The `invokestatic` of a lambda factory (never an interface method). */
  function FactoryCall(f: FactoryMethod): Insn {
    MethodInsn(INVOKESTATIC, f.owner, f.name, f.desc, false)
  }

  /** The implementation handle a call site carries as its second bootstrap argument, if any. */
  function ImplOf(insn: Insn): Option<Handle> {
    if insn.InvokeDynamic? && |insn.bsmArgs| >= 2 && insn.bsmArgs[1].HandleArg?
    then Some(insn.bsmArgs[1].handle) else None
  }

  /** The entries a call needing an accessor appends, and nothing otherwise. */
  function Appended(ctx: ClassContext, index: MethodIndex, table: AccessorTable, impl: Handle): AccessorTable {
    if NeedsAccessor(ctx, index, impl) == Ok(true)
    then [(AccessorFor(ctx.name, |table|, impl), impl)] else []
  }

  /**
    `backportLambda`: load the current class, take the implementation handle
    from `bsmArgs[1]`, resolve the handle to call, reify the lambda class and
    call its factory. Each step's failure aborts the pass, in that order.
   */
  function BackportLambda(env: Env, ctx: ClassContext, table: AccessorTable,
                          name: string, desc: MethodDesc, bsm: Handle, bsmArgs: seq<BsmArg>)
    : (r: Result<Step<Insn>, Error>)
    ensures !env.canLoad(BinaryName(ctx.name)) ==> r == Err(ClassNotFound(BinaryName(ctx.name)))
    ensures env.canLoad(BinaryName(ctx.name)) && |bsmArgs| < 2 ==> r == Err(MissingImplArgument(|bsmArgs|))
    ensures env.canLoad(BinaryName(ctx.name)) && |bsmArgs| >= 2 && !bsmArgs[1].HandleArg? ==>
              r == Err(ImplArgumentNotHandle(bsmArgs[1]))
    ensures env.canLoad(BinaryName(ctx.name)) && |bsmArgs| >= 2 && bsmArgs[1].HandleArg?
            && NeedsAccessor(ctx, env.index, bsmArgs[1].handle).Err? ==>
              r == Err(NeedsAccessor(ctx, env.index, bsmArgs[1].handle).error)
    ensures r.Ok? ==>
              && env.canLoad(BinaryName(ctx.name)) && |bsmArgs| >= 2 && bsmArgs[1].HandleArg?
              && NeedsAccessor(ctx, env.index, bsmArgs[1].handle).Ok?
    ensures env.canLoad(BinaryName(ctx.name)) && |bsmArgs| >= 2 && bsmArgs[1].HandleArg?
            && NeedsAccessor(ctx, env.index, bsmArgs[1].handle).Ok? ==>
              var impl := bsmArgs[1].handle;
              var acc := GetLambdaAccessMethod(ctx, env.index, table, impl).value.handle;
              var f := env.reify(ReifyRequest(impl, acc, BinaryName(ctx.name), name, desc, bsm, bsmArgs));
              f.Err? ==> r == Err(ReificationFailed(f.error))
    ensures r.Ok? ==>
              var impl := bsmArgs[1].handle;
              var acc := GetLambdaAccessMethod(ctx, env.index, table, impl).value.handle;
              var f := env.reify(ReifyRequest(impl, acc, BinaryName(ctx.name), name, desc, bsm, bsmArgs));
              f.Ok? && r.value.value == FactoryCall(f.value)
    ensures r.Ok? && WellNumbered(ctx.name, table) ==>
              && r.value.table == table + Appended(ctx, env.index, table, bsmArgs[1].handle)
              && WellNumbered(ctx.name, r.value.table)
  {
    var invoker := BinaryName(ctx.name);
    if !env.canLoad(invoker) then Err(ClassNotFound(invoker))
    else if |bsmArgs| < 2 then Err(MissingImplArgument(|bsmArgs|))
    else if !bsmArgs[1].HandleArg? then Err(ImplArgumentNotHandle(bsmArgs[1]))
    else
      var impl := bsmArgs[1].handle;
      match GetLambdaAccessMethod(ctx, env.index, table, impl)
      case Err(e) => Err(e)
      case Ok(resolved) =>
        match env.reify(ReifyRequest(impl, resolved.handle, invoker, name, desc, bsm, bsmArgs))
        case Err(reason) => Err(ReificationFailed(reason))
        case Ok(factory) => Ok(Step(FactoryCall(factory), resolved.table))
  }

  /**
    `InvokeDynamicInsnConverter.visitInvokeDynamicInsn`: lambda call sites are
    backported, every other instruction is forwarded as it is.
   */
  function ConvertInsn(env: Env, ctx: ClassContext, table: AccessorTable, insn: Insn)
    : (r: Result<Step<Insn>, Error>)
    ensures !IsLambdaCallSite(env, insn) ==> r == Ok(Step(insn, table))
    ensures IsLambdaCallSite(env, insn) && r.Ok? ==>
              && r.value.value.MethodInsn? && r.value.value.opcode == INVOKESTATIC && !r.value.value.itf
              && ImplOf(insn).Some? && env.canLoad(BinaryName(ctx.name))
              && NeedsAccessor(ctx, env.index, ImplOf(insn).value).Ok?
    ensures IsLambdaCallSite(env, insn) && r.Ok? && WellNumbered(ctx.name, table) ==>
              && r.value.table == table + Appended(ctx, env.index, table, ImplOf(insn).value)
              && WellNumbered(ctx.name, r.value.table)
  {
    if IsLambdaCallSite(env, insn) then
      BackportLambda(env, ctx, table, insn.name, insn.desc, insn.bsm, insn.bsmArgs)
    else
      Ok(Step(insn, table))
  }

  /** The instructions of one method body, converted in order against the shared table. */
  function ConvertBody(env: Env, ctx: ClassContext, table: AccessorTable, body: seq<Insn>)
    : Result<Step<seq<Insn>>, Error>
    decreases |body|
  {
    if |body| == 0 then Ok(Step([], table))
    else
      match ConvertInsn(env, ctx, table, body[0])
      case Err(e) => Err(e)
      case Ok(first) =>
        match ConvertBody(env, ctx, first.table, body[1..])
        case Err(e) => Err(e)
        case Ok(rest) => Ok(Step([first.value] + rest.value, rest.table))
  }

  /**
    A converted body has as many instructions as the original; every
    instruction that is not a lambda call site is forwarded unchanged at its
    position, and every lambda call site became an `invokestatic`.
   */
  lemma {:induction false} ConvertBodyShape(env: Env, ctx: ClassContext, table: AccessorTable, body: seq<Insn>)
    requires ConvertBody(env, ctx, table, body).Ok?
    ensures var out := ConvertBody(env, ctx, table, body).value.value;
            && |out| == |body|
            && (forall i :: 0 <= i < |body| && !IsLambdaCallSite(env, body[i]) ==> out[i] == body[i])
            && (forall i :: 0 <= i < |body| && IsLambdaCallSite(env, body[i]) ==>
                  out[i].MethodInsn? && out[i].opcode == INVOKESTATIC && !out[i].itf)
    decreases |body|
  {
    if |body| > 0 {
      var first := ConvertInsn(env, ctx, table, body[0]).value;
      ConvertBodyShape(env, ctx, first.table, body[1..]);
      var rest := ConvertBody(env, ctx, first.table, body[1..]).value.value;
      var out := ConvertBody(env, ctx, table, body).value.value;
      assert out == [first.value] + rest;
      assert forall i :: 1 <= i < |body| ==> out[i] == rest[i - 1] && body[i] == body[1..][i - 1];
    }
  }

  /**
    `visitMethod`: a deserialization hook is dropped with its body unvisited;
    any other method is forwarded with its body converted.
   */
  function VisitMethod(env: Env, ctx: ClassContext, table: AccessorTable, m: MethodDef)
    : (r: Result<Step<seq<ClassEvent>>, Error>)
    ensures env.isDeserializationHook(m.access, m.name, m.desc) ==> r == Ok(Step([], table))
    ensures !env.isDeserializationHook(m.access, m.name, m.desc) ==>
              (r.Ok? <==> ConvertBody(env, ctx, table, m.body).Ok?)
    ensures !env.isDeserializationHook(m.access, m.name, m.desc) && r.Ok? ==>
              && |r.value.value| == 1 && r.value.value[0].Method? && SameHeader(r.value.value[0].m, m)
              && r.value.value[0].m.body == ConvertBody(env, ctx, table, m.body).value.value
  {
    if env.isDeserializationHook(m.access, m.name, m.desc) then Ok(Step([], table))
    else
      match ConvertBody(env, ctx, table, m.body)
      case Err(e) => Err(e)
      case Ok(body) => Ok(Step([Method(MethodDef(m.access, m.name, m.desc, body.value))], body.table))
  }

  /** The methods the pass keeps: every one that is not a deserialization hook, in order. */
  function KeptMethods(env: Env, methods: seq<MethodDef>): (kept: seq<MethodDef>)
    ensures |kept| <= |methods|
    ensures forall i :: 0 <= i < |kept| ==> !env.isDeserializationHook(kept[i].access, kept[i].name, kept[i].desc)
    decreases |methods|
  {
    if |methods| == 0 then []
    else if env.isDeserializationHook(methods[0].access, methods[0].name, methods[0].desc)
    then KeptMethods(env, methods[1..])
    else [methods[0]] + KeptMethods(env, methods[1..])
  }

  /** A method is kept exactly when it is one of the methods and not a deserialization hook. */
  lemma {:induction false} KeptMethodsMembers(env: Env, methods: seq<MethodDef>)
    ensures forall m :: m in KeptMethods(env, methods) <==>
              m in methods && !env.isDeserializationHook(m.access, m.name, m.desc)
    decreases |methods|
  {
    if |methods| > 0 {
      KeptMethodsMembers(env, methods[1..]);
      assert methods == [methods[0]] + methods[1..];
    }
  }

  /**
    Keeping distributes over concatenation; with the single-method case this
    pins `KeptMethods` down as the order-preserving filter.
   */
  lemma {:induction false} KeptMethodsAppend(env: Env, a: seq<MethodDef>, b: seq<MethodDef>)
    ensures KeptMethods(env, a + b) == KeptMethods(env, a) + KeptMethods(env, b)
    decreases |a|
  {
    if |a| > 0 {
      assert (a + b)[1..] == a[1..] + b;
      KeptMethodsAppend(env, a[1..], b);
    } else {
      assert a + b == b;
    }
  }

  /** A single method is kept exactly when it is not a deserialization hook. */
  lemma KeptMethodsSingle(env: Env, m: MethodDef)
    ensures KeptMethods(env, [m]) == if env.isDeserializationHook(m.access, m.name, m.desc) then [] else [m]
  {
    assert [m][1..] == [];
  }

  /** Same access flags, name and descriptor. */
  predicate SameHeader(a: MethodDef, b: MethodDef) {
    a.access == b.access && a.name == b.name && a.desc == b.desc
  }

  /** All methods of the class, visited in order against the shared table. */
  function VisitMethods(env: Env, ctx: ClassContext, table: AccessorTable, methods: seq<MethodDef>)
    : Result<Step<seq<ClassEvent>>, Error>
    decreases |methods|
  {
    if |methods| == 0 then Ok(Step([], table))
    else
      match VisitMethod(env, ctx, table, methods[0])
      case Err(e) => Err(e)
      case Ok(first) =>
        match VisitMethods(env, ctx, first.table, methods[1..])
        case Err(e) => Err(e)
        case Ok(rest) => Ok(Step(first.value + rest.value, rest.table))
  }

  /** The visited methods are the kept ones, one event each, in order and with their headers. */
  lemma {:induction false} VisitMethodsShape(env: Env, ctx: ClassContext, table: AccessorTable, methods: seq<MethodDef>)
    requires VisitMethods(env, ctx, table, methods).Ok?
    ensures var out := VisitMethods(env, ctx, table, methods).value.value;
            var kept := KeptMethods(env, methods);
            && |out| == |kept|
            && forall i :: 0 <= i < |out| ==> out[i].Method? && SameHeader(out[i].m, kept[i])
    decreases |methods|
  {
    if |methods| > 0 {
      var m := methods[0];
      var first := VisitMethod(env, ctx, table, m).value;
      VisitMethodsShape(env, ctx, first.table, methods[1..]);
      var rest := VisitMethods(env, ctx, first.table, methods[1..]).value.value;
      var out := VisitMethods(env, ctx, table, methods).value.value;
      assert out == first.value + rest;
      var head := if env.isDeserializationHook(m.access, m.name, m.desc) then [] else [m];
      var kept := KeptMethods(env, methods);
      assert kept == head + KeptMethods(env, methods[1..]);
      assert |first.value| == |head|;
      forall i | 0 <= i < |out|
        ensures out[i].Method? && SameHeader(out[i].m, kept[i])
      {
        if i >= |head| {
          assert out[i] == rest[i - |head|];
          assert kept[i] == KeptMethods(env, methods[1..])[i - |head|];
        }
      }
    }
  }

  /**
    The whole pass over one class: the header is forwarded, the methods are
    visited with a fresh table, and the table is flushed before the end.
   */
  function Backport(env: Env, cls: ClassDef): Result<seq<ClassEvent>, Error> {
    var ctx := ClassContext(cls.access, cls.name);
    match VisitMethods(env, ctx, [], cls.methods)
    case Err(e) => Err(e)
    case Ok(visited) => Ok([Header(cls.access, cls.name)] + visited.value + VisitEnd(visited.table))
  }

  /** A successful pass is the header, the visited methods, then the flushed table. */
  lemma BackportUnfold(env: Env, cls: ClassDef)
    requires Backport(env, cls).Ok?
    ensures var visited := VisitMethods(env, ClassContext(cls.access, cls.name), [], cls.methods);
            && visited.Ok?
            && Backport(env, cls).value == [Header(cls.access, cls.name)] + visited.value.value + VisitEnd(visited.value.table)
  {
  }

  /**
    The output of a successful pass starts with the header and ends with the
    end event; in between come the kept methods with their headers, in order.
   */
  lemma BackportShape(env: Env, cls: ClassDef)
    requires Backport(env, cls).Ok?
    ensures var out := Backport(env, cls).value;
            var kept := KeptMethods(env, cls.methods);
            && |out| >= 2 + |kept|
            && out[0] == Header(cls.access, cls.name) && out[|out| - 1] == End
            && (forall i :: 1 <= i <= |kept| ==> out[i].Method? && SameHeader(out[i].m, kept[i - 1]))
  {
    var ctx := ClassContext(cls.access, cls.name);
    BackportUnfold(env, cls);
    var visited := VisitMethods(env, ctx, [], cls.methods).value;
    VisitMethodsShape(env, ctx, [], cls.methods);
    var out := Backport(env, cls).value;
    var kept := KeptMethods(env, cls.methods);
    assert out == [Header(cls.access, cls.name)] + visited.value + VisitEnd(visited.table);
    assert forall i :: 1 <= i <= |kept| ==> out[i] == visited.value[i - 1];
  }

  /** No method in the output of a successful pass is a deserialization hook. */
  lemma BackportDropsHooks(env: Env, cls: ClassDef)
    requires Backport(env, cls).Ok?
    ensures var out := Backport(env, cls).value;
            forall i :: 0 <= i < |out| && out[i].Method? ==>
              !env.isDeserializationHook(out[i].m.access, out[i].m.name, out[i].m.desc)
  {
    var ctx := ClassContext(cls.access, cls.name);
    BackportUnfold(env, cls);
    BackportShape(env, cls);
    var visited := VisitMethods(env, ctx, [], cls.methods).value;
    VisitMethodsShape(env, ctx, [], cls.methods);
    var out := Backport(env, cls).value;
    var kept := KeptMethods(env, cls.methods);
    var ends := VisitEnd(visited.table);
    assert out == [Header(cls.access, cls.name)] + visited.value + ends;
    forall i | 0 <= i < |out| && out[i].Method?
      ensures !env.isDeserializationHook(out[i].m.access, out[i].m.name, out[i].m.desc)
    {
      if 1 <= i <= |kept| {
        assert SameHeader(out[i].m, kept[i - 1]);
      }
    }
  }
}
