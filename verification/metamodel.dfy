/** The scanner's input and output vocabulary.

    The input is a table that stands in for Java reflection: for each model
    class, the interfaces it is assignable to, its type-level annotations, its
    superclass and its declared fields with their annotations. The output is
    one element definition per class, holding its children in the order the
    scanner adds them. */
module Metamodel {
  import opened Results

  /** Identity of a Java class (`Class<?>`). */
  type TypeId = nat

  /** The value of `Child.ORDER_UNKNOWN`: a child that declares no order. */
  const OrderUnknown: int := -1

  /** The element name that may be left without an order. */
  const IdentifierName: string := "identifier"

  /** The types a class is assignable to, as far as the scanner asks. */
  datatype Capability =
    | IElement
    | ICompositeElement
    | IResource
    | IDatatype
    | ICompositeDatatype
    | IPrimitiveDatatype
    | ICodedDatatype
    | IResourceBlock
    | ResourceReference
    | ICodeEnum
      /** the class is `java.util.List` itself */
    | ListType
      /** the class is assignable to `java.util.Collection` */
    | CollectionType

  /** `@ResourceDef(name, identifierOrder)` */
  datatype ResourceDefAnnotation = ResourceDefAnnotation(name: string, identifierOrder: int)

  /** `@Child(name, order, min, max, choice = @Choice(types))` */
  datatype ChildAnnotation = ChildAnnotation(name: string, order: int, min: int, max: int, choice: seq<TypeId>)

  /** One declared field (`java.lang.reflect.Field`) and the annotations on it. */
  datatype FieldInfo = FieldInfo(
    fieldName: string,
    declaredType: TypeId,
    /** the class given as type argument of a `List<...>` declaration, if there is one */
    typeArgument: Option<TypeId>,
    /** `@Narrative(name)` */
    narrative: Option<string>,
    /** `@Child` */
    child: Option<ChildAnnotation>,
    /** `@Extension(url)` */
    extension: Option<string>,
    /** `@ChildResource(types)` */
    childResource: Option<seq<TypeId>>,
    /** `@CodeableConceptElement(type)` */
    codeableConcept: Option<TypeId>
  )

  /** What reflection reveals about one class. */
  datatype TypeInfo = TypeInfo(
    isInterface: bool,
    caps: set<Capability>,
    resourceDef: Option<ResourceDefAnnotation>,
    /** `@DatatypeDef(name)` */
    datatypeDef: Option<string>,
    /** `@CodeTableDef` */
    codeTableDef: bool,
    /** `@Block(name)` */
    block: Option<string>,
    superclass: Option<TypeId>,
    fields: seq<FieldInfo>
  )

  /** A class about which the table says nothing, such as `java.lang.String`. */
  const PlainClass: TypeInfo := TypeInfo(false, {}, None, None, false, None, None, [])

  /** The classes visible to the scanner, and the four library classes it names. */
  datatype Classpath = Classpath(
    types: map<TypeId, TypeInfo>,
    narrativeDt: TypeId,
    dateDt: TypeId,
    codeDt: TypeId,
    xhtmlDt: TypeId
  )

  /** Java class hierarchies are acyclic; the table numbers every class above
      its superclass. */
  predicate SuperclassesRanked(cp: Classpath) {
    forall t :: t in cp.types && cp.types[t].superclass.Some? ==> cp.types[t].superclass.value < t
  }

  type Universe = cp: Classpath | SuperclassesRanked(cp) witness Classpath(map[], 0, 0, 0, 0)

  function Info(u: Universe, t: TypeId): TypeInfo {
    if t in u.types then u.types[t] else PlainClass
  }

  /** `C.class.isAssignableFrom(t)` for the capability `c`. */
  predicate Has(u: Universe, t: TypeId, c: Capability) {
    c in Info(u, t).caps
  }

  predicate IsInterface(u: Universe, t: TypeId) {
    Info(u, t).isInterface
  }

  /** `Character.isWhitespace`. */
  predicate IsWhitespace(c: char) {
    || '\U{0009}' <= c <= '\U{000D}'
    || '\U{001C}' <= c <= '\U{0020}'
    || c == '\U{1680}'
    || '\U{2000}' <= c <= '\U{2006}'
    || '\U{2008}' <= c <= '\U{200A}'
    || c == '\U{2028}' || c == '\U{2029}' || c == '\U{205F}' || c == '\U{3000}'
  }

  /** `StringUtils.isBlank` for a non-null string: empty or whitespace only. */
  predicate IsBlank(s: string) {
    forall i :: 0 <= i < |s| ==> IsWhitespace(s[i])
  }

  /** One child definition; the variants are the `RuntimeChild*Definition` classes. */
  datatype ChildDef =
    | NarrativeChild(fieldName: string, name: string)
    | ChoiceChild(name: string, min: int, max: int, types: seq<TypeId>)
    | ExtensionChild(name: string, min: int, max: int, url: string, valueType: TypeId)
    | ResourceRefChild(name: string, min: int, max: int, types: seq<TypeId>)
    | BlockChild(name: string, min: int, max: int, blockType: TypeId)
    | PrimitiveChild(name: string, min: int, max: int, dataType: TypeId, codeType: Option<TypeId>)
    | CompositeChild(name: string, min: int, max: int, dataType: TypeId, codeType: Option<TypeId>)

  /** One call the scanner makes on a composite definition: `addChild` or `addExtension`. */
  datatype Member = AddedChild(child: ChildDef) | AddedExtension(child: ChildDef)

  /** The `Runtime*Definition` built for one class. */
  datatype ElementDef =
    | ResourceDefinition(name: string, cls: TypeId, members: seq<Member>)
    | CompositeDatatypeDefinition(name: string, cls: TypeId, members: seq<Member>)
    | PrimitiveDatatypeDefinition(name: string, cls: TypeId)
    | PrimitiveNarrativeDefinition(name: string, cls: TypeId)
    | BlockDefinition(name: string, cls: TypeId, members: seq<Member>)

  /** Every `ConfigurationException` site, and the runtime exceptions and
      the endless loop the code can fall into. */
  datatype ScanError =
    | ResourceDefWithoutIResource
    | DatatypeDefWithoutIDatatype
    | CodeTableDefWithoutICodeEnum
    | BlockWithoutIResourceBlock
    | NoAnnotation
    | BlankName
    | DuplicateResourceName
    | DuplicateOrder
    | DuplicateName
    | UnplaceableElement
      /** the `NullPointerException` of asking an interface for its superclass
          while collecting the ancestors of the class being scanned */
    | InterfaceInChain
      /** the `ClassCastException` of adding a choice child found in the
          extension map (a `@Choice` field that also carries `@Extension`) */
    | ChoiceInExtensionMap
      /** `TreeMap.put(null, ...)` when a block or composite has an unordered `identifier` */
    | NullIdentifierOrder
      /** the relocation loop never ends (a negative `identifierOrder`) */
    | Diverges
      /** a `Collection` field that is not declared as `java.util.List` */
    | NonListCollection
      /** the `ClassCastException` of a `List` field without a class type argument */
    | UnresolvedListElement
    | MissingChildResource
    | NotCodedDatatype
    | InvalidChildType
}
