/** The hashing lab with its I/O stripped: SHA-256 is a parameter that maps
    file content to a 32-byte digest, file content is passed in as bytes and
    the report timestamps are passed in as text.
 */
module Lab {

  import opened Wrappers
  import opened JavaLang
  import opened HexEncoding
  import opened Comparator
  import opened Report

  /** The 32-byte output of SHA-256. */
  type Digest = d: seq<JavaByte> | |d| == 32 witness seq(32, _ => 0)

  /** The SHA-256 primitive behind `MessageDigest.getInstance("SHA-256")`,
      left uninterpreted. */
  type Sha256 = seq<JavaByte> -> Digest

  /** The space character as the single byte `getBytes()` gives for it. */
  const Space: JavaByte := 0x20

  /** `generateSHA256Hash` on content already read: the lower-case hex
      rendering of its digest. */
  function GenerateHash(sha256: Sha256, content: seq<JavaByte>): (hash: string)
    ensures |hash| == 64
    ensures IsLowerHex(hash)
    ensures Unhex(hash) == Some(sha256(content))
  {
    UnhexHex(sha256(content));
    HexAlphabet(sha256(content));
    Hex(sha256(content))
  }

  /** Two contents get the same hex hash exactly when their digests are equal. */
  lemma GenerateHashEqual(sha256: Sha256, a: seq<JavaByte>, b: seq<JavaByte>)
    ensures GenerateHash(sha256, a) == GenerateHash(sha256, b) <==> sha256(a) == sha256(b)
  {
    HexInjective(sha256(a), sha256(b));
  }

  /** The modified content of `main`: the original with one space appended. */
  function AppendSpace(content: seq<JavaByte>): (modified: seq<JavaByte>)
    ensures |modified| == |content| + 1
    ensures modified[..|content|] == content
    ensures modified[|content|] == Space
  {
    content + [Space]
  }

  /** The modification is never a no-op, and distinct files stay distinct. */
  lemma AppendSpaceInjective(a: seq<JavaByte>, b: seq<JavaByte>)
    ensures AppendSpace(a) != a
    ensures AppendSpace(a) == AppendSpace(b) <==> a == b
  {
    if AppendSpace(a) == AppendSpace(b) {
      assert a == AppendSpace(a)[..|a|];
      assert b == AppendSpace(b)[..|b|];
    }
  }

  /** Two hex hashes of digests always compare without an out-of-bounds
      access, are identical exactly when the digests are, and otherwise count
      the differing hex positions, of which there are 1 to 64. */
  lemma CompareDigestHashes(d1: Digest, d2: Digest)
    ensures !Compare(Hex(d1), Hex(d2)).IndexOutOfBounds?
    ensures Compare(Hex(d1), Hex(d2)) == Identical <==> d1 == d2
    ensures Compare(Hex(d1), Hex(d2)).Different? ==>
              1 <= Compare(Hex(d1), Hex(d2)).differences <= 64
    ensures Compare(Hex(d1), Hex(d2)).Different? ==>
              Compare(Hex(d1), Hex(d2)).differences == |DiffPositions(Hex(d1), Hex(d2))|
  {
    HexInjective(d1, d2);
  }

  /** The hash of one file together with the report text saved for it. */
  datatype Artifact = Artifact(hash: string, report: string)

  /** `generateSHA256Hash` followed by `saveHashToFile`. The saved report
      reads back as the digest's hex rendering and the timestamp. */
  function HashAndReport(sha256: Sha256, content: seq<JavaByte>, time: string): (a: Artifact)
    ensures |a.hash| == 64
    ensures Unhex(a.hash) == Some(sha256(content))
    ensures ParseReport(a.report) == Some(Fields(a.hash, time))
  {
    var hash := GenerateHash(sha256, content);
    HexNoLineBreak(hash);
    ParseReportText(hash, time);
    Artifact(hash, ReportText(hash, time))
  }

  /** What one run of `main` computes. */
  datatype LabRun = LabRun(
    original: Artifact,
    modifiedContent: seq<JavaByte>,
    modified: Artifact,
    comparison: Comparison)

  /** `main` without its console output and uploads: hash and report the
      original, append a space, hash and report the result, compare. */
  function RunLab(sha256: Sha256, original: seq<JavaByte>, originalTime: string, modifiedTime: string): (run: LabRun)
    ensures run.original == HashAndReport(sha256, original, originalTime)
    ensures run.modified == HashAndReport(sha256, run.modifiedContent, modifiedTime)
    ensures run.modifiedContent == AppendSpace(original)
    ensures run.comparison == Compare(run.original.hash, run.modified.hash)
    ensures |run.modifiedContent| == |original| + 1 && run.modifiedContent[..|original|] == original
    ensures !run.comparison.IndexOutOfBounds?
    ensures run.comparison == Identical <==> sha256(original) == sha256(run.modifiedContent)
    ensures run.comparison.Different? ==> 1 <= run.comparison.differences <= 64
  {
    var modified := AppendSpace(original);
    var a1 := HashAndReport(sha256, original, originalTime);
    var a2 := HashAndReport(sha256, modified, modifiedTime);
    CompareDigestHashes(sha256(original), sha256(modified));
    LabRun(a1, modified, a2, Compare(a1.hash, a2.hash))
  }

  /** Lower-case hex text holds no line break, so it fits on one report line. */
  lemma HexNoLineBreak(s: string)
    requires IsLowerHex(s)
    ensures '\n' !in s
  {
  }
}
