/** The fixed-shape course record of dm.c and the limits it is built with. */
module Records {

  /** Bound on the text fields `class_name` and `instructor` (MAX_STRING_LENGTH). */
  const MaxStringLength: nat := 256

  /** Number of slots a freshly initialised table allocates (INITIAL_CAPACITY). */
  const InitialCapacity: nat := 10

  /** The value `atof` produces. Its floating-point nature plays no part in the
      model, so it is kept abstract: only equality is ever asked of it. */
  type Duration(0, ==)

  /** One record: identifier, course label, duration and instructor. */
  datatype Record = Record(id: int, className: string, duration: Duration, instructor: string)

  /** The text a `strncpy` into a field of MaxStringLength characters keeps:
      the longest prefix of `s` that fits. */
  function Bounded(s: string): (r: string)
    ensures |r| <= MaxStringLength && |r| <= |s|
    ensures r == s[..|r|]
    ensures |r| == MaxStringLength || r == s
  {
    if |s| <= MaxStringLength then s else s[..MaxStringLength]
  }
}
