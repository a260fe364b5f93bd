/** Postgres type descriptors: an object identifier with an optional name, the
    coercion check between two descriptors, and the null-lifting decode of an
    optional value. */
module PgTypes {
  import opened Wrappers

  type u32 = x: int | 0 <= x < 0x1_0000_0000

  /** A Postgres type's object identifier (its row in `pg_type`). */
  datatype TypeId = TypeId(oid: u32)

  const CIDR := TypeId(650)
  const ARRAY_CIDR := TypeId(651)
  const INET := TypeId(869)
  const ARRAY_INET := TypeId(1041)
  const DATE := TypeId(1082)
  const TIME := TypeId(1083)
  const TIMESTAMP := TypeId(1114)
  const TIMESTAMPTZ := TypeId(1184)
  const NUMERIC := TypeId(1700)
  const UUID := TypeId(2950)

  // ---------------------------------------------------------------------------
  // SharedStr

  /** A string that is cheap to clone: either a static literal or a shared,
      reference-counted copy. Both hold the same kind of text. */
  datatype SharedStr = Static(text: string) | Arc(text: string)
  {
    /** `Deref`: the text, whichever way it is held. */
    function Deref(): string
    {
      match this
      case Static(s) => s
      case Arc(s) => s
    }
  }

  /** `From<&'static str>`. */
  function FromStatic(s: string): SharedStr
  {
    Static(s)
  }

  /** `From<String>`: moves the text into a shared allocation. */
  function FromString(s: string): SharedStr
  {
    Arc(s)
  }

  /** `From<&SharedStr>`: a clone. */
  function FromShared(s: SharedStr): SharedStr
  {
    s
  }

  /** Every conversion keeps the text, so dereferencing gives it back. */
  lemma FromPreservesText(s: string, shared: SharedStr)
    ensures FromStatic(s).Deref() == s
    ensures FromString(s).Deref() == s
    ensures FromShared(shared).Deref() == shared.Deref()
  {
  }

  // ---------------------------------------------------------------------------
  // Decimal rendering of an object identifier

  function DigitChar(d: nat): char
    requires d < 10
  {
    ('0' as int + d) as char
  }

  function DigitValue(c: char): nat
  {
    if '0' <= c <= '9' then (c as int - '0' as int) as nat else 0
  }

  predicate IsDigit(c: char)
  {
    '0' <= c <= '9'
  }

  /** The decimal spelling of `n`, as `{}` formats an integer. */
  function Decimal(n: nat): string
    decreases n
  {
    if n < 10 then [DigitChar(n)] else Decimal(n / 10) + [DigitChar(n % 10)]
  }

  /** The number a string of decimal digits stands for. */
  function DecimalValue(s: string): nat
  {
    if s == [] then 0 else 10 * DecimalValue(s[..|s| - 1]) + DigitValue(s[|s| - 1])
  }

  /** The decimal spelling is all digits, has no leading zero, and reads back as
      the number it spells. */
  lemma {:induction false} DecimalRoundTrip(n: nat)
    ensures |Decimal(n)| > 0
    ensures forall i :: 0 <= i < |Decimal(n)| ==> IsDigit(Decimal(n)[i])
    ensures |Decimal(n)| > 1 ==> Decimal(n)[0] != '0'
    ensures DecimalValue(Decimal(n)) == n
    decreases n
  {
    if n >= 10 {
      DecimalRoundTrip(n / 10);
      var s := Decimal(n);
      assert s == Decimal(n / 10) + [DigitChar(n % 10)];
      assert s[..|s| - 1] == Decimal(n / 10);
      assert s[0] == Decimal(n / 10)[0];
    }
  }

  // ---------------------------------------------------------------------------
  // PgTypeInfo

  /** Type information for a Postgres SQL type. */
  datatype PgTypeInfo = PgTypeInfo(id: TypeId, name: Option<SharedStr>)
  {
    /** `type_name`: the name, or `<UNKNOWN>` when the descriptor has none. */
    function TypeName(): string
    {
      match name
      case Some(n) => n.Deref()
      case None => "<UNKNOWN>"
    }

    /** `type_feature_gate`: the Cargo feature that supports this type, if any. */
    function TypeFeatureGate(): Option<string>
    {
      if id == DATE || id == TIME || id == TIMESTAMP || id == TIMESTAMPTZ then Some("chrono")
      else if id == UUID then Some("uuid")
      else if id == NUMERIC then Some("bigdecimal")
      else if id == CIDR || id == INET then Some("ipnetwork")
      else None
    }

    function Oid(): u32
    {
      id.oid
    }

    /** `Display`: the name when there is one, `OID <n>` otherwise. */
    function Display(): string
    {
      match name
      case Some(n) => n.Deref()
      case None => "OID " + Decimal(id.oid)
    }

    /** `TypeInfo::compatible`: INET and CIDR accept each other, and so do their
        array types; every other pair must have the same identifier. */
    function Compatible(other: PgTypeInfo): bool
    {
      if (id == CIDR && other.id == INET) || (id == INET && other.id == CIDR) ||
         (id == ARRAY_CIDR && other.id == ARRAY_INET) || (id == ARRAY_INET && other.id == ARRAY_CIDR)
      then true
      else id.oid == other.id.oid
    }
  }

  function New(id: TypeId, name: SharedStr): PgTypeInfo
  {
    PgTypeInfo(id, Some(name))
  }

  /** `with_oid`: a descriptor that knows only the identifier. */
  function WithOid(oid: u32): PgTypeInfo
  {
    PgTypeInfo(TypeId(oid), None)
  }

  lemma WithOidAccessors(oid: u32)
    ensures WithOid(oid).Oid() == oid
    ensures WithOid(oid).TypeName() == "<UNKNOWN>"
    ensures WithOid(oid).Display() == "OID " + Decimal(oid)
  {
  }

  lemma NewAccessors(id: TypeId, name: SharedStr)
    ensures New(id, name).Oid() == id.oid
    ensures New(id, name).TypeName() == name.Deref()
    ensures New(id, name).Display() == name.Deref()
  {
  }

  /** A nameless descriptor displays as `OID ` and digits that read back as its
      identifier; a named one never needs them. */
  lemma DisplayOid(t: PgTypeInfo)
    requires t.name.None?
    ensures |t.Display()| > 4 && t.Display()[..4] == "OID "
    ensures forall i :: 4 <= i < |t.Display()| ==> IsDigit(t.Display()[i])
    ensures DecimalValue(t.Display()[4..]) == t.Oid()
  {
    DecimalRoundTrip(t.id.oid);
    assert t.Display()[4..] == Decimal(t.id.oid);
  }

  lemma FeatureGates(t: PgTypeInfo)
    ensures t.id in {DATE, TIME, TIMESTAMP, TIMESTAMPTZ} <==> t.TypeFeatureGate() == Some("chrono")
    ensures t.id == UUID <==> t.TypeFeatureGate() == Some("uuid")
    ensures t.id == NUMERIC <==> t.TypeFeatureGate() == Some("bigdecimal")
    ensures t.id in {CIDR, INET} <==> t.TypeFeatureGate() == Some("ipnetwork")
    ensures t.id !in {DATE, TIME, TIMESTAMP, TIMESTAMPTZ, UUID, NUMERIC, CIDR, INET} <==> t.TypeFeatureGate() == None
  {
  }

  /** The class a type falls in for coercion: CIDR counts as INET, and the CIDR
      array as the INET array. */
  function CoercionClass(id: TypeId): u32
  {
    if id == CIDR then INET.oid
    else if id == ARRAY_CIDR then ARRAY_INET.oid
    else id.oid
  }

  /** Two descriptors are compatible exactly when they fall in the same class. */
  lemma CompatibleIffSameClass(a: PgTypeInfo, b: PgTypeInfo)
    ensures a.Compatible(b) <==> CoercionClass(a.id) == CoercionClass(b.id)
  {
  }

  /** So compatibility is an equivalence: reflexive, symmetric and transitive. */
  lemma CompatibleIsEquivalence(a: PgTypeInfo, b: PgTypeInfo, c: PgTypeInfo)
    ensures a.Compatible(a)
    ensures a.Compatible(b) <==> b.Compatible(a)
    ensures a.Compatible(b) && b.Compatible(c) ==> a.Compatible(c)
  {
    CompatibleIffSameClass(a, a);
    CompatibleIffSameClass(a, b);
    CompatibleIffSameClass(b, a);
    CompatibleIffSameClass(b, c);
    CompatibleIffSameClass(a, c);
  }

  /** Outside the network types compatibility is equality of identifiers; a
      scalar network type never matches an array type. */
  lemma CompatibleCases(a: PgTypeInfo, b: PgTypeInfo)
    ensures a.id in {INET, CIDR} && b.id in {INET, CIDR} ==> a.Compatible(b)
    ensures a.id in {ARRAY_INET, ARRAY_CIDR} && b.id in {ARRAY_INET, ARRAY_CIDR} ==> a.Compatible(b)
    ensures a.id in {INET, CIDR} && b.id in {ARRAY_INET, ARRAY_CIDR} ==> !a.Compatible(b)
    ensures a.id !in {INET, CIDR, ARRAY_INET, ARRAY_CIDR} ==> (a.Compatible(b) <==> a.Oid() == b.Oid())
  {
  }

  // ---------------------------------------------------------------------------
  // Decoding an optional value

  /** `Option::map`. */
  function MapOption<A, B>(o: Option<A>, f: A -> B): Option<B>
  {
    match o
    case None => None
    case Some(a) => Some(f(a))
  }

  /** `Option<Result<T, E>>::transpose`. */
  function Transpose<T, E>(o: Option<Result<T, E>>): Result<Option<T>, E>
  {
    match o
    case None => Ok(None)
    case Some(Ok(t)) => Ok(Some(t))
    case Some(Err(e)) => Err(e)
  }

  /** `Decode for Option<T>`: a NULL column decodes to `None`; any other value is
      handed to `T`'s decoder, whose value is wrapped and whose error is passed
      on unchanged. */
  function DecodeOption<V, T, E>(value: Option<V>, decode: Option<V> -> Result<T, E>): (r: Result<Option<T>, E>)
    ensures value.None? ==> r == Ok(None)
    ensures value.Some? && decode(value).Ok? ==> r == Ok(Some(decode(value).value))
    ensures value.Some? && decode(value).Err? ==> r == Err(decode(value).error)
  {
    Transpose(MapOption(value, (v: V) => decode(Some(v))))
  }
}
