/** C++ types as the container sees them: the traits, the erasure of a type to
    (category, constness, type specifier), and the way back. */
module CppTypes {

  /** Compound types without volatile. `Base` covers classes and fundamental types. */
  datatype Type =
    | Base(id: nat)
    | Pointer(to: Type)
    | Reference(to: Type)
    | Const(of: Type)

  datatype Category = IsPointer | IsReference | IsValue

  /** The types C++ can form: no pointer or reference to a reference, and const is
      neither repeated nor applied to a reference. */
  predicate WellFormed(t: Type) {
    match t
    case Base(_) => true
    case Pointer(u) => !u.Reference? && WellFormed(u)
    case Reference(u) => !u.Reference? && WellFormed(u)
    case Const(u) => !u.Reference? && !u.Const? && WellFormed(u)
  }

  predicate IsPointerType(t: Type) {
    match t
    case Pointer(_) => true
    case Const(u) => IsPointerType(u)
    case _ => false
  }

  function RemovePointer(t: Type): Type {
    match t
    case Pointer(u) => u
    case Const(Pointer(u)) => u
    case _ => t
  }

  function RemoveReference(t: Type): Type {
    if t.Reference? then t.to else t
  }

  function RemoveConst(t: Type): Type {
    if t.Const? then t.of else t
  }

  /** `const T` written on a type parameter: no effect on a const type or a reference. */
  function AddConst(t: Type): Type {
    if t.Const? || t.Reference? then t else Const(t)
  }

  function CategoryOf(t: Type): Category {
    if IsPointerType(t) then IsPointer
    else if t.Reference? then IsReference
    else IsValue
  }

  function ReferredType(t: Type): Type {
    if IsPointerType(t) then RemovePointer(t)
    else if t.Reference? then RemoveReference(t)
    else t
  }

  predicate IsConst(t: Type) {
    Pointer(ReferredType(t)) == Pointer(AddConst(ReferredType(t)))
  }

  function TypeSpecifier(t: Type): Type {
    RemoveConst(ReferredType(t))
  }

  /** What `AtUtil::GetTypes<T>::ActualType` makes of an argument type. */
  function ActualType(t: Type): Type {
    RemoveConst(t)
  }

  /** Types of table entries and of requests: well-formed, no const at the top. */
  predicate Unqualified(t: Type) {
    WellFormed(t) && !t.Const?
  }

  /** The bound type that `TableEntryReader::Get` rebuilds from an entry's erased description. */
  function Rebuild(category: Category, isConst: bool, spec: Type): Type {
    match category
    case IsValue => spec
    case IsPointer => Pointer(if isConst then AddConst(spec) else spec)
    case IsReference => Reference(if isConst then AddConst(spec) else spec)
  }

  /** Erasing a type loses exactly the const at its top, which changes neither its category nor
      its specifier. */
  lemma ErasureRoundTrip(t: Type)
    requires WellFormed(t)
    ensures Rebuild(CategoryOf(t), IsConst(t), TypeSpecifier(t)) == t <==> !t.Const?
    ensures Rebuild(CategoryOf(ActualType(t)), IsConst(ActualType(t)), TypeSpecifier(ActualType(t)))
            == ActualType(t)
    ensures CategoryOf(ActualType(t)) == CategoryOf(t) && TypeSpecifier(ActualType(t)) == TypeSpecifier(t)
  {
    assert !IsConst(ActualType(t)) || ActualType(t).Pointer? || ActualType(t).Reference?;
  }

  /** The selected `GetAndCast` overload: the entry type it downcasts to, and whether the
      result is a copy of what a reference denotes. */
  datatype Cast = Cast(downcastTo: Type, copy: bool) | NoCast

  function GetAndCast(requested: Type, bound: Type): Cast {
    var spec := TypeSpecifier(requested);
    if bound == requested then Cast(requested, false)
    else if requested == Pointer(AddConst(spec)) && bound == Pointer(spec) then Cast(Pointer(spec), false)
    else if requested == Reference(AddConst(spec)) && bound == Reference(spec) then Cast(Reference(spec), false)
    else if requested == spec && bound == Reference(spec) then Cast(Reference(spec), true)
    else if requested == spec && bound == Reference(AddConst(spec)) then Cast(Reference(AddConst(spec)), true)
    else NoCast
  }

  /** The overloads as they are written: the last one, for a value out of a const reference,
      names the entry type without the const. */
  function WrittenCast(requested: Type, bound: Type): Cast {
    var spec := TypeSpecifier(requested);
    if requested == spec && bound == Reference(AddConst(spec)) then Cast(Reference(spec), true)
    else GetAndCast(requested, bound)
  }

  datatype Reading =
    | Reads(copy: bool)
    | NoConversion
    | TypeIdMismatch
    | BadDowncast

  /** `TableEntryReader<requested>::Get` up to the call of the entry's own `Get`. A `down_cast`
      to a type that is not the entry's own would be `BadDowncast`. */
  function ReadAs(requested: Type, entry: Type): Reading {
    var spec := TypeSpecifier(requested);
    if spec != TypeSpecifier(entry) then TypeIdMismatch
    else
      var bound := Rebuild(CategoryOf(entry), IsConst(entry), spec);
      match GetAndCast(requested, bound)
      case NoCast => NoConversion
      case Cast(target, copy) => if target == entry then Reads(copy) else BadDowncast
  }

  /** The conversions the header documents, written on whole types instead of erased ones. */
  predicate GainsConst(from: Type, to: Type) {
    || (from.Pointer? && to.Pointer? && !from.to.Const? && to.to == Const(from.to))
    || (from.Reference? && to.Reference? && !from.to.Const? && to.to == Const(from.to))
  }

  predicate CopiesOut(from: Type, to: Type) {
    from.Reference? && RemoveConst(from.to) == to && CategoryOf(to) == IsValue
  }

  /** Every outcome of reading an entry, decided on whole types: what is rebuilt from the
      erased parts always names the entry's own type, so neither check can fire. */
  lemma ReadAsExact(requested: Type, entry: Type)
    requires Unqualified(requested) && Unqualified(entry)
    requires TypeSpecifier(requested) == TypeSpecifier(entry)
    ensures ReadAs(requested, entry) == Reads(false) <==> requested == entry || GainsConst(entry, requested)
    ensures ReadAs(requested, entry) == Reads(true) <==> CopiesOut(entry, requested)
    ensures !ReadAs(requested, entry).TypeIdMismatch? && !ReadAs(requested, entry).BadDowncast?
  {
    ErasureRoundTrip(requested);
    ErasureRoundTrip(entry);
    OnlyValuesAreSpecifiers(requested);
  }

  lemma OnlyValuesAreSpecifiers(t: Type)
    requires Unqualified(t)
    ensures TypeSpecifier(t) == t <==> t.Base?
  {
    if !t.Base? {
      var u := t.to;
      assert u < t && (u.Const? ==> u.of < u);
    }
  }

  /** The overloads as written select the same conversions, and downcast to the entry's own
      type except in one case: a value out of a const reference. */
  lemma WrittenCastExactly(requested: Type, entry: Type)
    requires Unqualified(requested) && Unqualified(entry)
    requires TypeSpecifier(requested) == TypeSpecifier(entry)
    ensures WrittenCast(requested, entry).NoCast? <==> ReadAs(requested, entry) == NoConversion
    ensures WrittenCast(requested, entry).Cast? ==>
      && ReadAs(requested, entry) == Reads(WrittenCast(requested, entry).copy)
      && (WrittenCast(requested, entry).downcastTo == entry <==> !(CopiesOut(entry, requested) && entry.to.Const?))
  {
    ErasureRoundTrip(requested);
    ErasureRoundTrip(entry);
    OnlyValuesAreSpecifiers(requested);
  }

  /** The one case is real: a value of a class bound to a const reference. */
  lemma ConstReferenceMisses(id: nat)
    ensures var requested, entry := Base(id), Reference(Const(Base(id)));
      && ReadAs(requested, entry) == Reads(true)
      && WrittenCast(requested, entry) == Cast(Reference(requested), true)
  {
  }
}
