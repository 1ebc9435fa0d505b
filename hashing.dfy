/** The file fingerprint: a digest of a file's bytes, or of only its first
    `maxHashSize` bytes when that budget is positive. The digest algorithm
    itself (SHA-1, hex-encoded) is a parameter `digest`; only the prefix
    policy and the chunked reading around it are modelled. */
module Hashing {

  newtype byte = b: int | 0 <= b < 0x100

  /** Size of the chunks in which a file hashed in full is read. */
  const ChunkSize: nat := 16384

  /** The bytes the digest covers: the first `maxHashSize` bytes when
      `maxHashSize > 0` (fewer when the file is shorter, as `f.read(n)`
      returns), the whole content otherwise, negative budgets included. */
  function HashedPart(content: seq<byte>, maxHashSize: int): (r: seq<byte>)
    ensures r <= content
    ensures maxHashSize > 0 && maxHashSize <= |content| ==> |r| == maxHashSize
    ensures maxHashSize <= 0 || maxHashSize >= |content| ==> r == content
  {
    if 0 < maxHashSize < |content| then content[..maxHashSize] else content
  }

  /** The checksum recorded for a file with this content. */
  function Fingerprint(content: seq<byte>, maxHashSize: int, digest: seq<byte> -> string): string
  {
    digest(HashedPart(content, maxHashSize))
  }

  /** `calculate_file_sha1`: with a positive budget one read of that many
      bytes is digested; otherwise the file is fed to the hasher chunk by
      chunk until a read comes back empty. Feeding chunks one after another
      digests their concatenation, so the hasher is modelled by the bytes
      fed to it so far. */
  method CalculateChecksum(content: seq<byte>, maxHashSize: int, digest: seq<byte> -> string)
    returns (checksum: string)
    ensures checksum == digest(HashedPart(content, maxHashSize))
  {
    if maxHashSize > 0 {
      var n := if maxHashSize < |content| then maxHashSize else |content|;
      assert content[..n] == HashedPart(content, maxHashSize);
      checksum := digest(content[..n]);
      return;
    }
    var fed: seq<byte> := [];
    var pos := 0;
    while pos < |content|
      invariant 0 <= pos <= |content|
      invariant fed == content[..pos]
      decreases |content| - pos
    {
      var end := if pos + ChunkSize < |content| then pos + ChunkSize else |content|;
      fed := fed + content[pos..end];
      pos := end;
    }
    assert fed == content;
    checksum := digest(fed);
  }

  /** With a positive budget, two files that agree on their first
      `maxHashSize` bytes get the same checksum however they differ
      afterwards. */
  lemma PrefixCollision(a: seq<byte>, b: seq<byte>, maxHashSize: int, digest: seq<byte> -> string)
    requires maxHashSize > 0 && |a| >= maxHashSize && |b| >= maxHashSize
    requires a[..maxHashSize] == b[..maxHashSize]
    ensures Fingerprint(a, maxHashSize, digest) == Fingerprint(b, maxHashSize, digest)
  {
    assert HashedPart(a, maxHashSize) == a[..maxHashSize];
    assert HashedPart(b, maxHashSize) == b[..maxHashSize];
  }

  /** So with a positive budget the fingerprint is never injective: there
      are always two different contents it cannot tell apart. */
  lemma {:induction false} BudgetLosesInjectivity(maxHashSize: int, digest: seq<byte> -> string)
    requires maxHashSize > 0
    ensures exists a: seq<byte>, b: seq<byte> :: a != b && Fingerprint(a, maxHashSize, digest) == Fingerprint(b, maxHashSize, digest)
  {
    var zeros := seq(maxHashSize, _ => 0 as byte);
    var a, b := zeros + [0], zeros + [1];
    assert a[maxHashSize] != b[maxHashSize];
    assert a[..maxHashSize] == zeros == b[..maxHashSize];
    PrefixCollision(a, b, maxHashSize, digest);
  }

  /** Without a budget the fingerprint tells contents apart as well as the
      digest does. */
  lemma FullFingerprintInjective(a: seq<byte>, b: seq<byte>, maxHashSize: int, digest: seq<byte> -> string)
    requires maxHashSize <= 0
    requires digest(a) == digest(b) ==> a == b
    ensures Fingerprint(a, maxHashSize, digest) == Fingerprint(b, maxHashSize, digest) ==> a == b
  {
    assert HashedPart(a, maxHashSize) == a && HashedPart(b, maxHashSize) == b;
  }
}
