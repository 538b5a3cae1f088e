/** The slice of PHP's data model that the token code touches: byte strings,
    the values a payload or a decoded JSON document can be, PHP's notion of an
    "empty" value, property access on decoded objects, and the exceptions the
    code throws, as an error datatype. */
module Php {

  /** PHP strings are byte strings; a byte is a character below 256, so that
      literals such as "sha256" can be written directly. */
  type Byte = c: char | c as int < 256 witness '\0'
  type Bytes = seq<Byte>

  datatype Option<T> = None | Some(value: T)

  /** The exceptions raised by the token code, one variant per kind. The
      classes are named unqualified in the namespace Auth\JWT\Parser:
      InvalidArgumentException, UnexpectedValueException, and Exception with
      the messages 'Empty Algorithm', 'Signature verification failed' and
      'Token verification failed'. */
  datatype Error =
    | InvalidArgument
    | UnexpectedValue
    | EmptyAlgorithm
    | SignatureFailed
    | TokenFailed

  /** Either the value a PHP function returns or the exception it throws. */
  datatype Outcome<T> = Ok(value: T) | Err(error: Error)

  datatype ArrayKey = IntKey(n: int) | StrKey(s: Bytes)

  /** A PHP value as a payload or a decoded JSON document can be: scalars,
      arrays (ordered maps, whose order is not modelled) and objects
      (instances of stdClass, as json_decode builds them). */
  datatype Value =
    | Null
    | Bool(b: bool)
    | Int(n: int)
    | Float(x: real)
    | Str(s: Bytes)
    | Arr(entries: map<ArrayKey, Value>)
    | Obj(props: map<Bytes, Value>)

  /** empty() on a string: the empty string and "0" are empty. */
  predicate EmptyString(s: Bytes) {
    s == "" || s == "0"
  }

  /** empty() on any value; an object is never empty. */
  predicate Empty(v: Value) {
    match v
    case Null => true
    case Bool(b) => !b
    case Int(n) => n == 0
    case Float(x) => x == 0.0
    case Str(s) => EmptyString(s)
    case Arr(entries) => |entries| == 0
    case Obj(_) => false
  }

  /** Reading $v->name: the property of an object, and null (with a
      warning) for a missing property or a value that is not an object. */
  function Property(v: Value, name: Bytes): (r: Value)
    ensures r != Null ==> v.Obj? && name in v.props && r == v.props[name]
    ensures v.Obj? && name in v.props ==> r == v.props[name]
  {
    if v.Obj? && name in v.props then v.props[name] else Null
  }

  /** property_exists($v, name) for the objects json_decode returns; a value
      that is not an object has no properties. */
  predicate PropertyExists(v: Value, name: Bytes) {
    v.Obj? && name in v.props
  }
}
