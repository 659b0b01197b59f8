/**
 * Stored values. Java object serialisation records each object together with
 * its class, so a stored value is modelled as a value tagged with its runtime
 * class; the byte format itself is not modelled.
 */
module Objects {

  datatype Obj =
    | Null                                            // a `null` reference
    | Str(chars: string)                              // a `java.lang.String`
    | Int(value: int)                                 // a boxed `java.lang.Integer`
    | Instance(className: string, fields: seq<Obj>)   // any other serializable class

  /** The runtime class of a non-null value. */
  function ClassOf(o: Obj): string
    requires !o.Null?
  {
    match o
    case Str(_) => "java.lang.String"
    case Int(_) => "java.lang.Integer"
    case Instance(c, _) => c
  }

  /** Classes every value handed to `write` belongs to: `write` only takes `Serializable` values. */
  predicate IsUniversal(className: string) {
    className == "java.lang.Object" || className == "java.io.Serializable"
  }

  /** A cast of `o` to `className` succeeds: `null` casts to anything. */
  predicate InstanceOf(o: Obj, className: string): (r: bool)
    ensures !o.Null? && className == ClassOf(o) ==> r
    ensures !o.Null? && !IsUniversal(className) && r ==> className == ClassOf(o)
  {
    o.Null? || IsUniversal(className) || ClassOf(o) == className
  }
}
