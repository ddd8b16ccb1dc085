/**
 * The dispatch table of the RPC service: a map from (service, method) keys to
 * handlers, with the key type's equals and hashCode.
 */
module Dispatch {
  import opened Wrappers
  import opened Bytes
  import opened Json

  /** RPCCallableMethod.handleCall: takes the args object, returns a value object or throws. */
  type Handler = Object -> Result<Object>

  /**
   * ServiceMethodTuple. Its constructor takes the method name first and the
   * service name second.
   */
  datatype ServiceMethodTuple = ServiceMethodTuple(methodName: string, serviceName: string)

  /** ServiceMethodTuple.equals: both the service and the method strings are equal. */
  predicate TupleEquals(a: ServiceMethodTuple, b: ServiceMethodTuple)
  {
    b.serviceName == a.serviceName && b.methodName == a.methodName
  }

  lemma TupleEqualsIsEquality(a: ServiceMethodTuple, b: ServiceMethodTuple)
    ensures TupleEquals(a, b) <==> a == b
  {
  }

  /** Reduces an integer to the int with the same low 32 bits. */
  function Wrap(x: int): int32
  {
    ToSigned(x % TwoTo32)
  }

  /** String.hashCode: h = 31 * h + c over the characters, in 32-bit arithmetic. */
  function StringHash(s: string): int32
  {
    StringHashFrom(0, s)
  }

  function StringHashFrom(h: int32, s: string): int32
    decreases |s|
  {
    if s == [] then h else StringHashFrom(Wrap(31 * h as int + s[0] as int), s[1..])
  }

  /** ServiceMethodTuple.hashCode: the sum of the two strings' hash codes, wrapped to 32 bits. */
  function HashCode(t: ServiceMethodTuple): int32
  {
    Wrap(StringHash(t.methodName) as int + StringHash(t.serviceName) as int)
  }

  /**
   * Keys that are equal have equal hash codes, so HashMap finds a
   * registration again. Immediate once TupleEqualsIsEquality holds: equal
   * keys are the same value, and hashCode is a function of the value.
   */
  lemma EqualTuplesHashEqually(a: ServiceMethodTuple, b: ServiceMethodTuple)
    requires TupleEquals(a, b)
    ensures HashCode(a) == HashCode(b)
  {
  }

  /**
   * The key that registerHandler and getRegistrationFor both build: each
   * passes the service name where the constructor expects the method name.
   */
  function Key(serviceName: string, methodName: string): ServiceMethodTuple
  {
    ServiceMethodTuple(serviceName, methodName)
  }

  /** The key is a one-to-one function of the (service, method) pair despite the swap. */
  lemma KeyInjective(s1: string, m1: string, s2: string, m2: string)
    ensures Key(s1, m1) == Key(s2, m2) <==> s1 == s2 && m1 == m2
  {
  }

  type Table = map<ServiceMethodTuple, Handler>

  /** registerHandler: callbacks.put(key, handler). */
  function Register(t: Table, serviceName: string, methodName: string, h: Handler): Table
  {
    t[Key(serviceName, methodName) := h]
  }

  /** getRegistrationFor: callbacks.get(key), None standing for null. */
  function Lookup(t: Table, serviceName: string, methodName: string): Option<Handler>
  {
    var k := Key(serviceName, methodName);
    if k in t then Some(t[k]) else None
  }

  /**
   * After registering h for (s, m), looking up (s, m) gives h (the last
   * registration wins) and every other pair looks up as before.
   */
  lemma LookupAfterRegister(t: Table, s: string, m: string, h: Handler, s': string, m': string)
    ensures Lookup(Register(t, s, m, h), s', m') ==
              if s' == s && m' == m then Some(h) else Lookup(t, s', m')
  {
    KeyInjective(s, m, s', m');
  }

  /** Nothing is found in a table where nothing was registered. */
  lemma LookupEmpty(s: string, m: string)
    ensures Lookup(map[], s, m) == None
  {
  }
}
