/** Names stored in fixed 64-byte buffers. */
module FixedNames {

  const NAME_BYTES: nat := 64

  type NameBuffer = b: seq<char> | |b| == NAME_BYTES witness seq(NAME_BYTES, _ => '\0')

  function Blank(): (b: NameBuffer)
    ensures forall i :: 0 <= i < NAME_BYTES ==> b[i] == '\0'
  {
    seq(NAME_BYTES, _ => '\0')
  }

  /** strnlen: the index of the first NUL, or the length of the buffer. */
  function TextLength(b: seq<char>): (n: nat)
    ensures n <= |b|
    ensures forall i :: 0 <= i < n ==> b[i] != '\0'
    ensures n < |b| ==> b[n] == '\0'
  {
    if b == [] || b[0] == '\0' then 0 else 1 + TextLength(b[1..])
  }

  /** The name a buffer holds. */
  function NameOf(b: NameBuffer): (name: string)
    ensures |name| <= NAME_BYTES && '\0' !in name
    ensures name == "" <==> b[0] == '\0'
  {
    b[..TextLength(b)]
  }

  /** `copy_name`: clears the buffer and copies at most 63 characters. */
  function CopyName(name: string): (b: NameBuffer)
    ensures |name| < NAME_BYTES ==> b[..|name|] == name && (forall i :: |name| <= i < NAME_BYTES ==> b[i] == '\0')
  {
    var n := if |name| < NAME_BYTES - 1 then |name| else NAME_BYTES - 1;
    name[..n] + seq(NAME_BYTES - n, _ => '\0')
  }

  /** A short name without NUL survives the buffer unchanged. */
  lemma NameRoundTrip(name: string)
    requires |name| < NAME_BYTES && '\0' !in name
    ensures NameOf(CopyName(name)) == name
  {
    TextLengthIs(CopyName(name), |name|);
  }

  lemma TextLengthIs(b: NameBuffer, n: nat)
    requires n < NAME_BYTES && b[n] == '\0' && '\0' !in b[..n]
    ensures TextLength(b) == n
  {
    assert forall i :: 0 <= i < n ==> b[i] == b[..n][i];
  }
}
