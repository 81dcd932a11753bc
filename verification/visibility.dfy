/**
  Whether the implementation method of a lambda can be called directly from
  the lambda class generated next to the current class, or needs a synthetic
  accessor in the current class.
 */
module Visibility {
  import opened Results
  import opened Names
  import opened Classfile

  /** What the pass remembers of the class header: its access flags and internal name. */
  datatype ClassContext = ClassContext(access: Flags, name: string)

  /**
    The pre-built method index (`ClassAnalyzer.getMethods`), keyed by the
    owner's internal name. A type the index never analysed has no methods.
   */
  type MethodIndex = map<string, seq<MethodInfo>>

  function MethodsOf(index: MethodIndex, owner: string): seq<MethodInfo> {
    if owner in index then index[owner] else []
  }

  /** Some entry of `methods` has the signature `sig`. */
  ghost predicate Declares(methods: seq<MethodInfo>, sig: MethodSignature) {
    exists i :: 0 <= i < |methods| && methods[i].signature == sig
  }

  /** The first entry of `methods` with the signature `sig` exists and has `flag` set. */
  ghost predicate FirstDeclarationHas(methods: seq<MethodInfo>, sig: MethodSignature, flag: Flags) {
    exists i :: 0 <= i < |methods| && methods[i].signature == sig && HasFlag(methods[i].access, flag)
      && forall j :: 0 <= j < i ==> methods[j].signature != sig
  }

  /** Position of the first entry with signature `sig`, or `|methods|`. */
  function FirstMatch(methods: seq<MethodInfo>, sig: MethodSignature): (k: nat)
    ensures k <= |methods|
    ensures forall j :: 0 <= j < k ==> methods[j].signature != sig
    ensures k < |methods| ==> methods[k].signature == sig
  {
    if |methods| == 0 then 0
    else if methods[0].signature == sig then 0
    else 1 + FirstMatch(methods[1..], sig)
  }

  /** The loop over `getMethods(...)` that stops at the first entry with the same signature. */
  function FindMethod(methods: seq<MethodInfo>, sig: MethodSignature): (r: Option<MethodInfo>)
    ensures r.None? <==> !Declares(methods, sig)
    ensures r.Some? ==> r.value.signature == sig
    ensures r.Some? ==> exists i :: 0 <= i < |methods| && methods[i] == r.value
                          && forall j :: 0 <= j < i ==> methods[j].signature != sig
  {
    var k := FirstMatch(methods, sig);
    if k < |methods| then Some(methods[k]) else None
  }

  /**
    `isOwnedMethodVisible`: an owned method is visible unless the index marks
    it private; a method the index does not list is an internal error.
   */
  function IsOwnedMethodVisible(impl: Handle, index: MethodIndex): (r: Result<bool, Error>)
    ensures r.Err? <==> !Declares(MethodsOf(index, impl.owner), SignatureOf(impl))
    ensures r.Err? ==> r.error == NonAnalyzedMethod(impl)
    ensures r == Ok(false) <==> FirstDeclarationHas(MethodsOf(index, impl.owner), SignatureOf(impl), ACC_PRIVATE)
  {
    match FindMethod(MethodsOf(index, impl.owner), SignatureOf(impl))
    case Some(m) => Ok(!HasFlag(m.access, ACC_PRIVATE))
    case None => Err(NonAnalyzedMethod(impl))
  }

  /**
    `isNonOwnedMethodVisible`: same package means visible without looking at
    the index; otherwise visible unless the index marks the method
    protected, and visible when the index does not list it. Both package
    prefixes are computed first, the current class's before the owner's.
   */
  function IsNonOwnedMethodVisible(className: string, impl: Handle, index: MethodIndex): (r: Result<bool, Error>)
    ensures PackageOf(className).None? ==> r == Err(NoPackageSeparator(className))
    ensures PackageOf(className).Some? && PackageOf(impl.owner).None? ==> r == Err(NoPackageSeparator(impl.owner))
    ensures r.Err? <==> PackageOf(className).None? || PackageOf(impl.owner).None?
    ensures PackageOf(className).Some? && PackageOf(className) == PackageOf(impl.owner) ==> r == Ok(true)
    ensures r == Ok(false) <==>
              && PackageOf(className).Some? && PackageOf(impl.owner).Some?
              && PackageOf(className) != PackageOf(impl.owner)
              && FirstDeclarationHas(MethodsOf(index, impl.owner), SignatureOf(impl), ACC_PROTECTED)
  {
    match PackageOf(className)
    case None => Err(NoPackageSeparator(className))
    case Some(classPackage) =>
      match PackageOf(impl.owner)
      case None => Err(NoPackageSeparator(impl.owner))
      case Some(implPackage) =>
        if classPackage == implPackage then Ok(true)
        else
          match FindMethod(MethodsOf(index, impl.owner), SignatureOf(impl))
          case Some(m) => Ok(!HasFlag(m.access, ACC_PROTECTED))
          case None => Ok(true)
  }

  /**
    The decision at the head of `getLambdaAccessMethod`: true when the
    implementation method needs an accessor. A method owned by an interface
    never does, since it is relocated to a companion class.
   */
  function NeedsAccessor(ctx: ClassContext, index: MethodIndex, impl: Handle): (r: Result<bool, Error>)
    ensures impl.owner == ctx.name && IsInterface(ctx.access) ==> r == Ok(false)
    ensures impl.owner == ctx.name && !IsInterface(ctx.access) ==>
              && (r.Err? <==> !Declares(MethodsOf(index, ctx.name), SignatureOf(impl)))
              && (r.Err? ==> r.error == NonAnalyzedMethod(impl))
              && (r == Ok(true) <==> FirstDeclarationHas(MethodsOf(index, ctx.name), SignatureOf(impl), ACC_PRIVATE))
    ensures impl.owner != ctx.name ==>
              && (r.Err? <==> PackageOf(ctx.name).None? || PackageOf(impl.owner).None?)
              && (PackageOf(ctx.name).Some? && PackageOf(ctx.name) == PackageOf(impl.owner) ==> r == Ok(false))
              && (r == Ok(true) <==>
                    && PackageOf(ctx.name).Some? && PackageOf(impl.owner).Some?
                    && PackageOf(ctx.name) != PackageOf(impl.owner)
                    && FirstDeclarationHas(MethodsOf(index, impl.owner), SignatureOf(impl), ACC_PROTECTED))
  {
    if impl.owner != ctx.name then
      match IsNonOwnedMethodVisible(ctx.name, impl, index)
      case Ok(visible) => Ok(!visible)
      case Err(e) => Err(e)
    else if IsInterface(ctx.access) then Ok(false)
    else
      match IsOwnedMethodVisible(impl, index)
      case Ok(visible) => Ok(!visible)
      case Err(e) => Err(e)
  }
}
