/** The record stored in every table: an immutable wrapper around a code string
    (src/Registro.java). */
module Records {

  /** The only length the constructor accepts. */
  const CodeLength: nat := 9

  /** A code that passed the constructor's check: exactly nine characters, of
      any kind (the characters are not checked to be digits). */
  type Code = s: string | |s| == CodeLength witness "000000000"

  datatype Record = Record(code: Code)

  /** The outcome of the constructor: a record, or the IllegalArgumentException
      thrown for a code of the wrong length. */
  datatype Construction = Built(record: Record) | InvalidLength

  /** `new Registro(codigo)`, followed by `getCodigo()` on success. */
  function NewRecord(code: string): (r: Construction)
    ensures r.Built? <==> |code| == CodeLength
    ensures r.Built? ==> r.record.code == code
  {
    if |code| != CodeLength then InvalidLength else Built(Record(code))
  }

  /** The argument of `equals(Object)`: null, a record, or an object of
      another class. */
  datatype Object = Null | RecordObject(rec: Record) | OtherObject

  /** `Registro.equals`. */
  function Equals(self: Record, obj: Object): (eq: bool)
    ensures eq <==> obj == RecordObject(self)
  {
    match obj
    case RecordObject(other) => self.code == other.code
    case _ => false
  }

  /** Record equality is an equivalence relation, and it is exactly the value
      equality that the tables use to compare records. */
  lemma EqualsIsEquivalence(a: Record, b: Record, c: Record)
    ensures Equals(a, RecordObject(a))
    ensures Equals(a, RecordObject(b)) <==> Equals(b, RecordObject(a))
    ensures Equals(a, RecordObject(b)) && Equals(b, RecordObject(c)) ==> Equals(a, RecordObject(c))
    ensures Equals(a, RecordObject(b)) <==> a == b
    ensures !Equals(a, Null) && !Equals(a, OtherObject)
  {
  }

  /** `Registro.hashCode`: the hash of the code string. Java's `String.hashCode`
      is not part of this model, so the string hash is a parameter. */
  function HashCode(r: Record, stringHash: string -> int): (h: int)
    ensures forall other: Record :: Equals(r, RecordObject(other)) ==> h == stringHash(other.code)
  {
    stringHash(r.code)
  }

  /** Equal records have equal hash codes, whatever the string hash. */
  lemma EqualRecordsEqualHashCodes(a: Record, b: Record, stringHash: string -> int)
    ensures Equals(a, RecordObject(b)) ==> HashCode(a, stringHash) == HashCode(b, stringHash)
  {
  }
}
