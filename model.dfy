/** The entities the container works with: Go types as reflection shows them,
    component instances with their injectable field slots, the descriptor the
    container keeps for each registered component, and the errors it reports. */
module Model {

  datatype Option<T> = None | Some(value: T)

  datatype Result<T> = Ok(value: T) | Err(error: Error)

  /** A Go type, reduced to what the container looks at: a named type
      (`main.FileLogger`, `main.Logger`) or a pointer to another type. */
  datatype GoType = Named(name: string) | Pointer(elem: GoType)

  /** How reflection prints a type: one `*` per pointer level. */
  function TypeString(t: GoType): (r: string) {
    match t
    case Named(n) => n
    case Pointer(e) => "*" + TypeString(e)
  }

  /** One field of a component's struct: its name, its declared type, whether
      reflection may set it (exported field), and its `autowire` tag if the
      field has one (an empty tag is `Some("")`, no tag is `None`). */
  datatype Slot = Slot(fieldName: string, declaredType: GoType, canSet: bool, tag: Option<string>)

  /** A component instance. Its dynamic type, its fields and which lifecycle
      interfaces it implements are fixed; the field values are what injection
      sets in place (`null` is Go's nil). */
  class Instance {
    const typ: GoType
    const slots: seq<Slot>
    const implementsInit: bool
    const implementsStart: bool
    const implementsStop: bool
    var fields: seq<Instance?>

    constructor (typ: GoType, slots: seq<Slot>, initial: seq<Instance?>,
                 implementsInit: bool, implementsStart: bool, implementsStop: bool)
      requires |initial| == |slots|
      ensures this.typ == typ && this.slots == slots && fields == initial
      ensures this.implementsInit == implementsInit
      ensures this.implementsStart == implementsStart
      ensures this.implementsStop == implementsStop
    {
      this.typ := typ;
      this.slots := slots;
      this.implementsInit := implementsInit;
      this.implementsStart := implementsStart;
      this.implementsStop := implementsStop;
      fields := initial;
    }
  }

  /** The descriptor the container records for a registered component. */
  datatype ComponentInfo = ComponentInfo(
    instance: Instance,
    instanceType: GoType,
    name: string,
    priority: int,
    exportedTypes: seq<GoType>,
    isPrimary: bool)

  /** The errors of the container, one constructor per message it formats,
      wrapping its cause where the source wraps one with `%w`. */
  datatype Error =
    | DuplicateName(name: string, existingType: GoType, newType: GoType)
    | NameNotFound(name: string)
    | TypeNotFound(t: GoType)
    | NotAssignable(name: string, componentType: GoType, fieldType: GoType)
    | Ambiguous(exported: GoType, names: seq<string>)
    | MultiplePrimary(exported: GoType, names: seq<string>)
    | FieldFailed(field: string, cause: Error)
    | InjectFailed(component: string, cause: Error)
    | InitFailed(component: string, message: string)
    | StartFailed(component: string, message: string)
    | StopFailed(component: string, message: string)
    | AlreadyStarted
    | RegistrationFailed(cause: Error)
    | TypeValidationFailed(cause: Error)
    | DependencyInjectionFailed(cause: Error)
    | InitializationFailed(cause: Error)
    | StartupFailed(cause: Error)

  /** The set of names of a list of descriptors. */
  function NameSet(cs: seq<ComponentInfo>): (r: set<string>) {
    set i | 0 <= i < |cs| :: cs[i].name
  }

  /** No descriptor repeats the name of one before it. */
  ghost predicate NamesDistinct(cs: seq<ComponentInfo>) {
    cs == [] || (NamesDistinct(cs[..|cs| - 1]) && cs[|cs| - 1].name !in NameSet(cs[..|cs| - 1]))
  }

  /** Distinct names, read pairwise: no two positions hold the same name. */
  lemma {:induction false} NamesDistinctPairwise(cs: seq<ComponentInfo>)
    ensures NamesDistinct(cs) <==> forall i, j :: 0 <= i < j < |cs| ==> cs[i].name != cs[j].name
  {
    if cs != [] {
      var n := |cs| - 1;
      NamesDistinctPairwise(cs[..n]);
      assert forall i :: 0 <= i < n ==> cs[..n][i] == cs[i];
    }
  }

  /** The instances of a list of descriptors. */
  function InstancesOf(cs: seq<ComponentInfo>): (r: set<Instance>) {
    set i | 0 <= i < |cs| :: cs[i].instance
  }
}
