/**
  The class-file entities the rewrite pass reads and writes: access flags,
  method handles (section 4.4.8 of the Java Virtual Machine Specification,
  SE 8), method-index entries, bootstrap arguments, the instructions the pass
  inspects, and the failures it can raise.
 */
module Classfile {
  import opened Descriptors

  /** Access flags as the 32-bit `int` ASM hands around. */
  type Flags = bv32

  const ACC_PRIVATE: Flags := 0x0002
  const ACC_PROTECTED: Flags := 0x0004
  const ACC_STATIC: Flags := 0x0008
  const ACC_INTERFACE: Flags := 0x0200
  const ACC_SYNTHETIC: Flags := 0x1000

  /** The `invokestatic` opcode. */
  const INVOKESTATIC: int := 184

  predicate HasFlag(access: Flags, flag: Flags) {
    access & flag != 0
  }

  /** `Flags.isInterface`: the class's ACC_INTERFACE bit is set. */
  predicate IsInterface(classAccess: Flags) {
    HasFlag(classAccess, ACC_INTERFACE)
  }

  /**
    Method-handle reference kinds, tags 1 (`REF_getField`) to 9
    (`REF_invokeInterface`) in declaration order.
   */
  datatype RefKind =
    | GetField | GetStatic | PutField | PutStatic
    | InvokeVirtual | InvokeStatic | InvokeSpecial | NewInvokeSpecial | InvokeInterface

  /** An ASM `Handle`: equal when tag, owner, name and descriptor are equal. */
  datatype Handle = Handle(kind: RefKind, owner: string, name: string, desc: MethodDesc)

  /** The name and descriptor a method index entry is matched on. */
  datatype MethodSignature = MethodSignature(name: string, desc: MethodDesc)

  /** One method of an analysed type, with its access flags. */
  datatype MethodInfo = MethodInfo(signature: MethodSignature, access: Flags)

  function SignatureOf(h: Handle): MethodSignature {
    MethodSignature(h.name, h.desc)
  }

  /** A static bootstrap argument of an `invokedynamic`. */
  datatype BsmArg =
    | HandleArg(handle: Handle)
    | MethodTypeArg(methodType: MethodDesc)
    | ConstantArg(text: string)

  /** The instructions of a method body, as far as the pass distinguishes them. */
  datatype Insn =
    | InvokeDynamic(name: string, desc: MethodDesc, bsm: Handle, bsmArgs: seq<BsmArg>)
    | MethodInsn(opcode: int, owner: string, name: string, desc: MethodDesc, itf: bool)
    | OtherInsn(opcode: int)

  /** A method of the class being rewritten. */
  datatype MethodDef = MethodDef(access: Flags, name: string, desc: MethodDesc, body: seq<Insn>)

  /** The class being rewritten: its header and its methods in class-file order. */
  datatype ClassDef = ClassDef(access: Flags, name: string, methods: seq<MethodDef>)

  /** What the pass hands downstream, in order. */
  datatype ClassEvent =
    | Header(access: Flags, name: string)
    | Method(m: MethodDef)
    | Delegate(access: Flags, accessor: Handle, impl: Handle)
    | End

  /** The failures that abort the pass. */
  datatype Error =
    | NonAnalyzedMethod(impl: Handle)
    | NoPackageSeparator(internalName: string)
    | ClassNotFound(binaryName: string)
    | MissingImplArgument(argCount: nat)
    | ImplArgumentNotHandle(arg: BsmArg)
    | ReificationFailed(reason: string)
}
