/**
  Two worked examples of the pass on a class `p/M`: a lambda whose body is a
  private instance method gets accessor `access$lambda$0`, and a lambda whose
  body is a public static method is called directly.
 */
module Scenarios {
  import opened Results
  import opened Descriptors
  import opened Names
  import opened Classfile
  import opened Visibility
  import opened Accessors
  import opened Rewrite

  const VoidDesc: MethodDesc := MethodDesc([], Void)
  const Metafactory: string := "java/lang/invoke/LambdaMetafactory"
  const RunnableDesc: MethodDesc := MethodDesc([], Returns(Object("java/lang/Runnable")))
  const Bootstrap: Handle := Handle(InvokeStatic, Metafactory, "metafactory", VoidDesc)
  const Factory: FactoryMethod := FactoryMethod("p/M$$Lambda$1", "lambdaFactory$", RunnableDesc)

  /** An environment that loads every class, knows no hooks and always reifies to `Factory`. */
  function TestEnv(index: MethodIndex): Env {
    Env(index, Metafactory, (a: Flags, n: string, d: MethodDesc) => false, (c: string) => true,
        (q: ReifyRequest) => Ok(Factory))
  }

  function LambdaSite(impl: Handle): Insn {
    InvokeDynamic("run", RunnableDesc, Bootstrap,
                  [MethodTypeArg(VoidDesc), HandleArg(impl), MethodTypeArg(VoidDesc)])
  }

  /** A class with a single method is the header, that method's events, and the flushed table. */
  lemma SingleMethodClass(env: Env, access: Flags, name: string, m: MethodDef, out: seq<ClassEvent>, t: AccessorTable)
    requires VisitMethod(env, ClassContext(access, name), [], m) == Ok(Step(out, t))
    ensures Backport(env, ClassDef(access, name, [m])) == Ok([Header(access, name)] + out + VisitEnd(t))
  {
    var ctx := ClassContext(access, name);
    assert [m][1..] == [];
    assert VisitMethods(env, ctx, t, []) == Ok(Step([], t));
    assert out + [] == out;
    assert VisitMethods(env, ctx, [], [m]) == Ok(Step(out, t));
  }

  const M: string := "p/M"
  const Ctx: ClassContext := ClassContext(0x0021, M)

  /** `M.bar()V`, private, referenced as an instance-method implementation. */
  const Bar: Handle := Handle(InvokeSpecial, M, "bar", VoidDesc)
  const BarIndex: MethodIndex := map[M := [MethodInfo(MethodSignature("run", VoidDesc), 0x0001),
                                           MethodInfo(MethodSignature("bar", VoidDesc), ACC_PRIVATE)]]
  const BarAccessor: Handle := Handle(InvokeStatic, M, "access$lambda$0", MethodDesc([Object(M)], Void))
  const Run: MethodDef := MethodDef(0x0001, "run", VoidDesc, [LambdaSite(Bar), OtherInsn(177)])
  const RunRewritten: MethodDef := MethodDef(0x0001, "run", VoidDesc, [FactoryCall(Factory), OtherInsn(177)])

  /** The private owned method needs an accessor: `access$lambda$0(Lp/M;)V`, recorded as entry 0. */
  lemma PrivateInstanceMethodAccessor()
    ensures GetLambdaAccessMethod(Ctx, BarIndex, [], Bar) == Ok(Resolved(BarAccessor, [(BarAccessor, Bar)]))
  {
    var methods := BarIndex[M];
    assert FirstMatch(methods, SignatureOf(Bar)) == 1;
    assert FindMethod(methods, SignatureOf(Bar)) == Some(methods[1]);
    assert !IsInterface(Ctx.access);
    assert NeedsAccessor(Ctx, BarIndex, Bar) == Ok(true);
    assert AccessorName(0) == "access$lambda$0";
    assert AccessorFor(M, 0, Bar) == BarAccessor;
  }

  /** The body of `run` gets the factory call in place of the `invokedynamic`. */
  lemma PrivateInstanceMethodBody()
    ensures ConvertBody(TestEnv(BarIndex), Ctx, [], Run.body)
            == Ok(Step(RunRewritten.body, [(BarAccessor, Bar)]))
  {
    var env := TestEnv(BarIndex);
    var t := [(BarAccessor, Bar)];
    PrivateInstanceMethodAccessor();
    assert ConvertInsn(env, Ctx, [], LambdaSite(Bar)) == Ok(Step(FactoryCall(Factory), t));
    assert ConvertInsn(env, Ctx, t, OtherInsn(177)) == Ok(Step(OtherInsn(177), t));
    assert [OtherInsn(177)][1..] == [];
    assert ConvertBody(env, Ctx, t, []) == Ok(Step([], t));
    assert [OtherInsn(177)] + [] == [OtherInsn(177)];
    assert ConvertBody(env, Ctx, t, [OtherInsn(177)]) == Ok(Step([OtherInsn(177)], t));
    assert Run.body[1..] == [OtherInsn(177)];
    assert Run.body[0] == LambdaSite(Bar);
    assert [FactoryCall(Factory)] + [OtherInsn(177)] == RunRewritten.body;
  }

  lemma PrivateInstanceMethodVisit()
    ensures VisitMethod(TestEnv(BarIndex), Ctx, [], Run) == Ok(Step([Method(RunRewritten)], [(BarAccessor, Bar)]))
  {
    PrivateInstanceMethodBody();
  }

  /**
    `M` declares a private instance method `bar()V` that a lambda in `run`
    uses: the pass calls the factory, allocates `access$lambda$0(Lp/M;)V`
    and emits one static synthetic delegate for it before the end.
   */
  lemma PrivateInstanceMethodScenario()
    ensures Backport(TestEnv(BarIndex), ClassDef(0x0021, M, [Run])) == Ok([
              Header(0x0021, M),
              Method(RunRewritten),
              Delegate(ACC_STATIC | ACC_SYNTHETIC, BarAccessor, Bar),
              End])
  {
    var env := TestEnv(BarIndex);
    var t := [(BarAccessor, Bar)];
    var out := [Method(RunRewritten)];
    PrivateInstanceMethodVisit();
    SingleMethodClass(env, 0x0021, M, Run, out, t);
    assert t[1..] == [];
    assert VisitEnd(t) == [Delegate(DelegateAccess, BarAccessor, Bar), End];
    assert [Header(0x0021, M)] + out + [Delegate(DelegateAccess, BarAccessor, Bar), End]
        == [Header(0x0021, M), Method(RunRewritten), Delegate(DelegateAccess, BarAccessor, Bar), End];
  }

  /** `M.f()V`, public and static. */
  const F: Handle := Handle(InvokeStatic, M, "f", VoidDesc)
  const FIndex: MethodIndex := map[M := [MethodInfo(MethodSignature("f", VoidDesc), 0x0009)]]
  const Caller: MethodDef := MethodDef(0x0001, "run", VoidDesc, [LambdaSite(F)])

  /** A public owned static method is called directly: no accessor and no table entry. */
  lemma PublicStaticMethodAccessor()
    ensures GetLambdaAccessMethod(Ctx, FIndex, [], F) == Ok(Resolved(F, []))
  {
    var methods := FIndex[M];
    assert FindMethod(methods, SignatureOf(F)) == Some(methods[0]);
    assert NeedsAccessor(Ctx, FIndex, F) == Ok(false);
  }

  /** The caller's body gets the factory call; the table stays empty. */
  lemma PublicStaticMethodBody()
    ensures ConvertBody(TestEnv(FIndex), Ctx, [], Caller.body) == Ok(Step([FactoryCall(Factory)], []))
  {
    var env := TestEnv(FIndex);
    PublicStaticMethodAccessor();
    assert ConvertInsn(env, Ctx, [], LambdaSite(F)) == Ok(Step(FactoryCall(Factory), []));
    assert Caller.body[1..] == [];
    assert Caller.body[0] == LambdaSite(F);
    assert ConvertBody(env, Ctx, [], []) == Ok(Step([], []));
    assert [FactoryCall(Factory)] + [] == [FactoryCall(Factory)];
  }

  lemma PublicStaticMethodVisit()
    ensures VisitMethod(TestEnv(FIndex), Ctx, [], Caller)
            == Ok(Step([Method(MethodDef(0x0001, "run", VoidDesc, [FactoryCall(Factory)]))], []))
  {
    PublicStaticMethodBody();
  }

  /** With no accessor needed, the class gets no delegate: header, method, end. */
  lemma PublicStaticMethodScenario()
    ensures Backport(TestEnv(FIndex), ClassDef(0x0021, M, [Caller])) == Ok([
              Header(0x0021, M),
              Method(MethodDef(0x0001, "run", VoidDesc, [FactoryCall(Factory)])),
              End])
  {
    var env := TestEnv(FIndex);
    var out := [Method(MethodDef(0x0001, "run", VoidDesc, [FactoryCall(Factory)]))];
    PublicStaticMethodVisit();
    SingleMethodClass(env, 0x0021, M, Caller, out, []);
    assert VisitEnd([]) == [End];
    assert [Header(0x0021, M)] + out + [End] == [Header(0x0021, M), out[0], End];
  }

  /** `q/Base.g(I)V`, a protected instance method of a superclass in another package. */
  const G: Handle := Handle(InvokeVirtual, "q/Base", "g", MethodDesc([Base('I')], Void))
  const GIndex: MethodIndex := map["q/Base" := [MethodInfo(MethodSignature("g", MethodDesc([Base('I')], Void)), ACC_PROTECTED)]]

  /**
    A protected method of another package needs an accessor, and the
    receiver parameter the accessor takes is the current class, not the
    method's owner.
   */
  lemma ProtectedInheritedMethodScenario()
    ensures GetLambdaAccessMethod(Ctx, GIndex, [], G)
            == Ok(Resolved(Handle(InvokeStatic, M, "access$lambda$0", MethodDesc([Object(M), Base('I')], Void)),
                           [(Handle(InvokeStatic, M, "access$lambda$0", MethodDesc([Object(M), Base('I')], Void)), G)]))
  {
    var q := "q/Base";
    assert M[1] == '/' && M[2] != '/';
    assert PackageOf(M) == Some(M[..1]) && M[..1] == "p";
    assert q[1] == '/' && q[2] != '/' && q[3] != '/' && q[4] != '/' && q[5] != '/';
    assert PackageOf(q) == Some(q[..1]) && q[..1] == "q";
    var methods := GIndex["q/Base"];
    assert FindMethod(methods, SignatureOf(G)) == Some(methods[0]);
    assert NeedsAccessor(Ctx, GIndex, G) == Ok(true);
    assert AccessorName(0) == "access$lambda$0";
    assert AccessorDesc(M, G) == MethodDesc([Object(M), Base('I')], Void);
  }
}
