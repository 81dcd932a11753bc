# Lambda call-site backporting in retrolambda, modelled in Dafny

Retrolambda rewrites Java 8 class files so that they run on older JVMs. Its
per-class pass `BackportLambdaInvocations` replaces every `invokedynamic`
that bootstraps through `LambdaMetafactory` with a plain `invokestatic` of a
factory method. The factory sits in a lambda class that is generated ahead of
time. That generated class lives next to the current class and cannot call
a private method of it, or a protected method inherited from another package.
For such an implementation method the pass synthesises a static trampoline,
`access$lambda$<k>`, in the current class. It records the trampoline in an
insertion-ordered table and emits one static synthetic delegate per table
entry when the class ends. The pass also drops the compiler-generated
deserialization hook of lambdas.

This project models that pass as pure functions over immutable data:

- `results.dfy`: `Option` and `Result`.
- `descriptors.dfy`: method descriptors as structured values (section 4.3 of
  the Java Virtual Machine Specification, SE 8). Includes their text form and
  a proof that the text form is injective, so comparing descriptor strings
  and comparing structured descriptors agree.
- `names.dfy`: the decimal rendering of the table size and the accessor name
  built from it, `String.lastIndexOf`, the package prefix of an internal name
  (with Java's failure when there is no `/`), and the binary name given to
  the class loader.
- `classfile.dfy`: access flags as `bv32` with the class-file constants,
  reference kinds of method handles (section 4.4.8 of the Java Virtual
  Machine Specification), handles, bootstrap arguments, instructions,
  methods, classes, output events and the pass's failures.
- `visibility.dfy`: the method index, the first-match lookup, and
  `isOwnedMethodVisible` / `isNonOwnedMethodVisible` together with the
  decision at the head of `getLambdaAccessMethod`.
- `accessors.dfy`: `getLambdaAccessMethodDesc`, the accessor table as a
  `seq` of pairs with `LinkedHashMap.put` semantics, and
  `getLambdaAccessMethod` with its numbering invariant. Also `visitEnd`.
- `rewrite.dfy`: `backportLambda`, `visitInvokeDynamicInsn`, the per-method
  converter, the `visitMethod` hook filter and the whole-class pass
  (header, methods, delegates, end).
- `expected.dfy`: an independent description of the table a class ends up
  with: one numbered entry per call site needing an accessor, in call-site
  order. Lemmas prove that the pass builds exactly that table and emits its
  delegates in that order.
- `scenarios.dfy`: worked examples. A private instance method gets
  `access$lambda$0(Lp/M;)V` and one delegate. A public static method is
  called directly with no delegate. A protected method of a superclass in
  another package gets an accessor whose receiver is the current class.

The collaborators the pass calls but does not define are inputs, gathered in
`Rewrite.Env`:

- the method index (`ClassAnalyzer.getMethods`);
- the owner of the metafactory bootstrap (`LambdaNaming.LAMBDA_METAFACTORY`);
- the deserialization-hook test (`LambdaNaming.isDeserializationHook`);
- which binary names the context class loader can load;
- the reifier (`LambdaReifier.reifyLambdaClass`).

Every exception the pass can raise is an `Error` value, and each aborts the
pass. In `backportLambda` they arise in the source's order:

1. the class load fails;
2. `bsmArgs[1]` is missing;
3. `bsmArgs[1]` is not a handle;
4. the visibility check fails (an owned method missing from the index, or an
   internal name without `/`);
5. reification fails.

Three points of the code shape the model:

- `substring(0, lastIndexOf('/'))` (lines 96-97) throws for a name without
  `/`, that is, a class in the default package. The model returns
  `NoPackageSeparator`, checking the current class's name first.
- `put` (line 78) would replace the value of an equal key in place. The
  model's `Put` does the same. `GetLambdaAccessMethod` proves that on a
  numbered table the key is always fresh, so the table grows by one entry
  at the end.
- The lookup loops (lines 86-91 and 105-110) stop at the first entry with
  the same name and descriptor, in the analyzer's list order. The model
  takes the first match in list order.

## Model

| member | source | states |
|---|---|---|
| Descriptors.DescStringInjective | retrolambda/src/main/java/net/orfjackal/retrolambda/lambdas/BackportLambdaInvocations.java:83-87 | Two well-formed descriptors have the same text exactly when they are the same descriptor, so comparing signatures structurally is comparing their descriptor strings |
| Names.DecimalRoundTrip | retrolambda/src/main/java/net/orfjackal/retrolambda/lambdas/BackportLambdaInvocations.java:75 | Reading back the decimal rendering of the table size gives the size |
| Names.AccessorNameNumber | retrolambda/src/main/java/net/orfjackal/retrolambda/lambdas/BackportLambdaInvocations.java:75 | An accessor name is `access$lambda$` followed by digits only, and those digits read back as the accessor's number |
| Names.AccessorNameInjective | retrolambda/src/main/java/net/orfjackal/retrolambda/lambdas/BackportLambdaInvocations.java:75 | Two accessor names are equal exactly when their numbers are equal |
| Names.LastIndexOf | retrolambda/src/main/java/net/orfjackal/retrolambda/lambdas/BackportLambdaInvocations.java:96-97 | The result is -1 or a position holding the character, and no later position holds it |
| Names.PackageOf | retrolambda/src/main/java/net/orfjackal/retrolambda/lambdas/BackportLambdaInvocations.java:96-97 | There is no package exactly when the name has no `/`; otherwise the package is the prefix ending right before the last `/` |
| Names.BinaryName | retrolambda/src/main/java/net/orfjackal/retrolambda/lambdas/BackportLambdaInvocations.java:169 | Same length as the internal name, each `/` turned into `.`, every other character kept |
| Visibility.FirstMatch | retrolambda/src/main/java/net/orfjackal/retrolambda/lambdas/BackportLambdaInvocations.java:86-87 | The result is the position of the first entry with the signature, or the length when none has it |
| Visibility.FindMethod | retrolambda/src/main/java/net/orfjackal/retrolambda/lambdas/BackportLambdaInvocations.java:86-91 | Nothing is found exactly when no entry has the signature; a found entry has the signature and no earlier entry does |
| Visibility.IsOwnedMethodVisible | retrolambda/src/main/java/net/orfjackal/retrolambda/lambdas/BackportLambdaInvocations.java:82-93 | Fails with the non-analyzed-method error exactly when the owner's methods do not list the signature; answers not visible exactly when the first listed declaration is private |
| Visibility.IsNonOwnedMethodVisible | retrolambda/src/main/java/net/orfjackal/retrolambda/lambdas/BackportLambdaInvocations.java:95-112 | Fails exactly when either name has no `/`, naming the current class first; the same package is visible; answers not visible exactly when the packages differ and the first listed declaration is protected, so an unlisted method is visible |
| Visibility.NeedsAccessor | retrolambda/src/main/java/net/orfjackal/retrolambda/lambdas/BackportLambdaInvocations.java:60-74 | An interface's own method never needs an accessor; a class's own method needs one exactly when it is private and fails when unlisted; another class's method needs one exactly when it is protected in a different package |
| Accessors.AccessorDesc | retrolambda/src/main/java/net/orfjackal/retrolambda/lambdas/BackportLambdaInvocations.java:114-127 | Static: the descriptor is kept. Constructor: same parameters, returning the owner's type. Any other kind: the current class's type is added as the first parameter, the rest and the return type kept |
| Accessors.AccessorDescValid | retrolambda/src/main/java/net/orfjackal/retrolambda/lambdas/BackportLambdaInvocations.java:114-127 | A well-formed implementation descriptor gives a well-formed accessor descriptor |
| Accessors.AccessorDescText | retrolambda/src/main/java/net/orfjackal/retrolambda/lambdas/BackportLambdaInvocations.java:114-127 | In text form: static is identical; a constructor keeps everything up to `)` and returns `L<owner>;`; any other kind inserts `L<class>;` right after `(` |
| Accessors.KeyIndex | retrolambda/src/main/java/net/orfjackal/retrolambda/lambdas/BackportLambdaInvocations.java:23 | The position of the first entry with the key, or the table size when no entry has it |
| Accessors.Put | retrolambda/src/main/java/net/orfjackal/retrolambda/lambdas/BackportLambdaInvocations.java:78 | A new key is appended at the end; an existing key keeps its position and takes the new value, other entries unchanged |
| Accessors.WellNumberedKeysDistinct | retrolambda/src/main/java/net/orfjackal/retrolambda/lambdas/BackportLambdaInvocations.java:75-78 | A table whose i-th entry is the i-th accessor never holds the same accessor twice |
| Accessors.NextAccessorIsFresh | retrolambda/src/main/java/net/orfjackal/retrolambda/lambdas/BackportLambdaInvocations.java:75-78 | The accessor numbered by the table size is not yet a key of such a table |
| Accessors.GetLambdaAccessMethod | retrolambda/src/main/java/net/orfjackal/retrolambda/lambdas/BackportLambdaInvocations.java:60-80 | Fails exactly when the visibility check fails, with its error. A visible implementation is returned with the table untouched. Otherwise the result is the static accessor in the current class, named after the table size, and the table is `put` with it. On a numbered table that is exactly one new entry at the end, earlier entries unchanged, and the numbering is kept |
| Accessors.SameImplTwice | retrolambda/src/main/java/net/orfjackal/retrolambda/lambdas/BackportLambdaInvocations.java:75-79 | The same implementation resolved twice gives two entries under two different accessors; the table is never deduplicated |
| Accessors.VisitEnd | retrolambda/src/main/java/net/orfjackal/retrolambda/lambdas/BackportLambdaInvocations.java:129-137 | One static synthetic delegate per table entry, in table order, then the end event; an empty table emits only the end |
| Rewrite.BackportLambda | retrolambda/src/main/java/net/orfjackal/retrolambda/lambdas/BackportLambdaInvocations.java:155-163 | The failures arise in order: class load, missing `bsmArgs[1]`, non-handle `bsmArgs[1]`, visibility, reification. On success the instruction is the non-interface `invokestatic` of the factory that the reifier returns for `bsmArgs[1]` and the resolved handle, and the table gains exactly the accessor the handle needs |
| Rewrite.ConvertInsn | retrolambda/src/main/java/net/orfjackal/retrolambda/lambdas/BackportLambdaInvocations.java:146-153 | An instruction that is not a metafactory call site is forwarded unchanged with the table untouched; a metafactory call site becomes one `invokestatic` and adds at most its own accessor |
| Rewrite.ConvertBodyShape | retrolambda/src/main/java/net/orfjackal/retrolambda/lambdas/BackportLambdaInvocations.java:140-153 | A converted body has as many instructions as the original; every non-lambda instruction stays at its position unchanged, every lambda call site became an `invokestatic` |
| Rewrite.VisitMethod | retrolambda/src/main/java/net/orfjackal/retrolambda/lambdas/BackportLambdaInvocations.java:52-58 | A deserialization hook produces nothing and leaves the table alone; any other method produces exactly one method with the same flags, name and descriptor and its converted body, failing exactly when the body's conversion fails |
| Rewrite.KeptMethods | retrolambda/src/main/java/net/orfjackal/retrolambda/lambdas/BackportLambdaInvocations.java:53-56 | No kept method is a deserialization hook, and there are no more kept methods than methods |
| Rewrite.KeptMethodsMembers | retrolambda/src/main/java/net/orfjackal/retrolambda/lambdas/BackportLambdaInvocations.java:53-57 | A method is kept exactly when it is one of the class's methods and not a deserialization hook |
| Rewrite.KeptMethodsAppend | retrolambda/src/main/java/net/orfjackal/retrolambda/lambdas/BackportLambdaInvocations.java:53-57 | Keeping the methods of two lists one after the other is keeping the methods of their concatenation, so the order is preserved |
| Rewrite.KeptMethodsSingle | retrolambda/src/main/java/net/orfjackal/retrolambda/lambdas/BackportLambdaInvocations.java:53-57 | A single method is kept exactly when it is not a deserialization hook |
| Rewrite.VisitMethodsShape | retrolambda/src/main/java/net/orfjackal/retrolambda/lambdas/BackportLambdaInvocations.java:52-58 | The visited methods of a class are exactly the non-hook methods, one each, in order and with their headers |
| Rewrite.BackportShape | retrolambda/src/main/java/net/orfjackal/retrolambda/lambdas/BackportLambdaInvocations.java:30-58 | The output starts with the class header and ends with the end event; in between come the kept methods, in order, with their headers |
| Rewrite.BackportDropsHooks | retrolambda/src/main/java/net/orfjackal/retrolambda/lambdas/BackportLambdaInvocations.java:52-58 | No method in the output is a deserialization hook |
| Expected.Numbered | retrolambda/src/main/java/net/orfjackal/retrolambda/lambdas/BackportLambdaInvocations.java:75-78 | The reference table: entry i is the accessor numbered from the start plus i, paired with the i-th implementation |
| Expected.NumberedAppend | retrolambda/src/main/java/net/orfjackal/retrolambda/lambdas/BackportLambdaInvocations.java:75-78 | A numbered run for one list followed by the run continuing from where it stopped is the run for both lists together |
| Expected.WellNumberedExtend | retrolambda/src/main/java/net/orfjackal/retrolambda/lambdas/BackportLambdaInvocations.java:75-78 | Appending a run numbered from the table size keeps the numbering invariant |
| Expected.ConvertInsnTable | retrolambda/src/main/java/net/orfjackal/retrolambda/lambdas/BackportLambdaInvocations.java:146-162 | One converted instruction appends the reference entry for its call site when it needs an accessor, and nothing otherwise |
| Expected.ConvertBodyTable | retrolambda/src/main/java/net/orfjackal/retrolambda/lambdas/BackportLambdaInvocations.java:140-162 | Converting a body appends one numbered accessor per lambda call site needing one, in call-site order, from the current table size |
| Expected.VisitMethodTable | retrolambda/src/main/java/net/orfjackal/retrolambda/lambdas/BackportLambdaInvocations.java:52-58 | Visiting one method appends the reference entries of its call sites, or none for a hook |
| Expected.VisitMethodsTable | retrolambda/src/main/java/net/orfjackal/retrolambda/lambdas/BackportLambdaInvocations.java:52-80 | After all methods, the table is the reference table of every call site in the non-hook methods, in order, numbered from 0 |
| Expected.BackportDelegates | retrolambda/src/main/java/net/orfjackal/retrolambda/lambdas/BackportLambdaInvocations.java:129-137 | After the methods come exactly one static synthetic delegate per call site needing an accessor, the i-th for accessor `access$lambda$i`, then the end |
| Scenarios.PrivateInstanceMethodAccessor | retrolambda/src/main/java/net/orfjackal/retrolambda/lambdas/BackportLambdaInvocations.java:70-79 | A private instance method of a class gets `access$lambda$0(Lp/M;)V`, recorded as the only entry |
| Scenarios.PrivateInstanceMethodScenario | retrolambda/src/main/java/net/orfjackal/retrolambda/lambdas/BackportLambdaInvocations.java:52-137 | For that class the output is the header, the method calling the factory, one static synthetic delegate for `access$lambda$0`, and the end |
| Scenarios.PublicStaticMethodAccessor | retrolambda/src/main/java/net/orfjackal/retrolambda/lambdas/BackportLambdaInvocations.java:70-73 | A public static method of the class is returned unchanged and the table stays empty |
| Scenarios.PublicStaticMethodScenario | retrolambda/src/main/java/net/orfjackal/retrolambda/lambdas/BackportLambdaInvocations.java:52-137 | For that class the output is the header, the method calling the factory, and the end, with no delegate |
| Scenarios.ProtectedInheritedMethodScenario | retrolambda/src/main/java/net/orfjackal/retrolambda/lambdas/BackportLambdaInvocations.java:95-125 | A protected method of a superclass in another package gets an accessor whose first parameter is the current class, not the method's owner |

## Left out

- `resetLambdaClassSequenceNumber` (reflection on JDK internals and logging
  to standard output) is not modelled. Its only effect is the numbering of
  generated lambda class names, and any failure in it is swallowed.
- `loadClass` is reduced to whether the context class loader can load the
  binary name (`Env.canLoad`). The loaded `Class` object is not modelled:
  the reifier receives the binary name instead.
- `LambdaReifier.reifyLambdaClass` is an input function (`Env.reify`). Its
  exception is modelled as an error message, and the lambda class it
  generates as a side effect is not modelled.
- `Bytecode.generateDelegateMethod` is recorded as a `Delegate` output event
  carrying the flags, the accessor and the implementation. The body it
  generates is not modelled.
- `ClassAnalyzer.getMethods` is an input map from owner to method list. An
  owner the map lacks answers the empty list, which stands for a class the
  analyzer never saw.
- `LambdaNaming.isDeserializationHook` and `LambdaNaming.LAMBDA_METAFACTORY`
  are inputs (`Env.isDeserializationHook`, `Env.metafactory`).
- The `Types` helpers are replaced by structured descriptors. The text form
  is defined only to show it is injective and how the accessor descriptor
  text relates to the implementation's.
- ASM plumbing is not modelled. That covers the visitor chaining, the ASM5
  API level, and a null downstream visitor. It also covers class-file
  version, signature, superclass, interfaces, fields, annotations and
  instructions other than `invokedynamic`, which are forwarded untouched. A
  method's generic signature and exceptions are likewise outside the model.
- Instructions other than `invokedynamic` are opaque (`OtherInsn`), and a
  method is modelled as its flags, name, descriptor and instruction list.
- Java's `int` overflow of the table size is not modelled: accessor numbers
  are unbounded naturals.
- GetLambdaAccessMethod: the growth of the table by exactly one entry at
  the end is stated for tables that satisfy the numbering invariant (entry
  i is the i-th accessor). On any other table the contract states the
  returned accessor and that the table is `Put` with it. Every table the
  modelled pass reaches satisfies the invariant, which is proved to be kept.
- BackportLambda: the table relation is stated under the same numbering
  invariant, for the same reason.
- ConvertInsn: the table relation is stated under the same numbering
  invariant, for the same reason.
- One pass instance per class is assumed. The Java visitor creates its
  table once, when it is constructed (line 23), and never clears it: not in
  `visit` (lines 31-36) and not in `visitEnd` (lines 130-137). `Backport`
  starts each class with an empty table, which is what happens when every
  class gets its own `BackportLambdaInvocations`. The caller is not part of
  this model. A reused instance would continue the numbering and emit the
  earlier class's delegates again.
- Env.reify: the reifier is a pure function of its request. The program
  names each generated lambda class with a JDK-wide counter that `visit`
  resets (lines 32 and 38-50) and the reifier advances. So two call sites
  with identical requests get different factories in the program and the
  same factory in the model. The numbering of lambda classes is not
  modelled.
