# Hashing Lab — a Dafny model

The Hashing Lab is a short Java demonstration of the avalanche effect of
SHA-256: it hashes a file, renders the digest as lower-case hexadecimal,
saves it in a small text report, appends one space to the file, hashes and
reports again, and compares the two hex strings character by character.

This project models the pure logic of that run and proves its properties:

- `JavaLang` — the Java primitives the code relies on: the signed `byte`
  (`JavaByte`), the `0xff & b` mask (`Mask`), and `Integer.toHexString` on a
  non-negative value (`ToHexString`), with its lower-case digit alphabet.
- `HexEncoding` — the hex rendering loop of `generateSHA256Hash`, as the
  function `Hex` and as the method `EncodeHex` that mirrors the
  `StringBuilder` loop, together with a decoder `Unhex` used as its partner
  (round trip in both directions, injectivity, per-position nibbles,
  distribution over concatenation).
- `Comparator` — `compareHashes`: the equality test and the count of
  differing positions (`DiffCount`, the loop `CountDifferences`), checked
  against the set of differing indices. All three outcomes the code can reach
  on strings of characters are kept, including the
  `StringIndexOutOfBoundsException` a shorter second string causes (lengths
  are counted in characters, not UTF-16 code units; see "Left out").
- `Report` — the report text of `saveHashToFile`, with a reader
  `ParseReport` that recovers hash and timestamp from it.
- `Lab` — the run of `main` with the I/O stripped: SHA-256 is a parameter of
  type `seq<JavaByte> -> Digest` (a 32-byte sequence), contents and
  timestamps are passed in. The model proves that both hashes are 64
  lower-case hex characters, both reports read back as their hash and
  timestamp, and the comparison never goes out of bounds. It also proves
  that the comparison is `compareHashes` on the two hex hashes: "identical"
  exactly when the two digests are equal, and otherwise the number of
  differing hex positions, between 1 and 64.

The model keeps the code as written, in particular:

- `compareHashes` does not check that the two strings have equal length. A
  shorter second string makes `charAt` throw at index `|hash2|`. A first
  string that is a proper prefix of the second is reported as not identical,
  with 0 differing characters (`Comparator.PrefixDiffersByNothing`).
- `saveHashToFile` writes a label line, the hash line, a blank line and the
  date line: exactly
  `"SHA-256 Hash:\n" + hash + "\n\nGeneration date: " + timestamp`, with no
  trailing line break.

## Model

| member | source | states |
|---|---|---|
| `JavaLang.Mask` | src/main/java/com/hashinglab/FileHashingLab.java:28 | `0xff & b` gives the unique value in 0..255 congruent to the signed byte modulo 256 |
| `JavaLang.ToHexString` | src/main/java/com/hashinglab/FileHashingLab.java:28 | `Integer.toHexString` yields at least one lower-case hex digit, a single digit exactly for values below 16, and no leading zero except for 0 |
| `JavaLang.ToHexStringValue` | src/main/java/com/hashinglab/FileHashingLab.java:28 | the numeral `Integer.toHexString` produces reads back as the value it was given |
| `JavaLang.ToHexStringOfByte` | src/main/java/com/hashinglab/FileHashingLab.java:28-29 | on an unsigned byte value the numeral is one digit below 0x10 and otherwise exactly the high and low nibble |
| `JavaLang.DigitAlphabet` | src/main/java/com/hashinglab/FileHashingLab.java:28 | the digit for value d is character d of `0123456789abcdef`, the RFC 4648 section 8 alphabet in lower case |
| `HexEncoding.ByteHex` | src/main/java/com/hashinglab/FileHashingLab.java:28-30 | one iteration appends exactly two characters, the high then the low nibble of `0xff & b`; the padding branch supplies the '0' below 0x10 |
| `HexEncoding.Hex` | src/main/java/com/hashinglab/FileHashingLab.java:26-31 | the encoding of n bytes has length exactly 2n, two characters per byte |
| `HexEncoding.HexAlphabet` | src/main/java/com/hashinglab/FileHashingLab.java:28 | every character of the encoding is one of `0-9a-f` |
| `HexEncoding.HexAppend` | src/main/java/com/hashinglab/FileHashingLab.java:26-31 | the encoding of a concatenation is the concatenation of the encodings, bytes in order |
| `HexEncoding.HexAt` | src/main/java/com/hashinglab/FileHashingLab.java:27-30 | characters 2i and 2i+1 are the high and low nibble of the unsigned value of byte i |
| `HexEncoding.PairByte` | src/main/java/com/hashinglab/FileHashingLab.java:28-30 | two characters decode to a byte exactly when both are lower-case hex digits, and that byte encodes back to the same two characters |
| `HexEncoding.UnhexHex` | src/main/java/com/hashinglab/FileHashingLab.java:26-31 | decoding the encoding of any byte sequence gives that byte sequence back |
| `HexEncoding.HexUnhex` | src/main/java/com/hashinglab/FileHashingLab.java:26-31 | any text that decodes is exactly the encoding of what it decodes to |
| `HexEncoding.UnhexDefined` | src/main/java/com/hashinglab/FileHashingLab.java:26-31 | exactly the even-length lower-case hex texts are encodings |
| `HexEncoding.HexInjective` | src/main/java/com/hashinglab/FileHashingLab.java:26-31 | two byte sequences have equal encodings if and only if they are equal |
| `HexEncoding.EncodeHex` | src/main/java/com/hashinglab/FileHashingLab.java:26-33 | the `StringBuilder` loop, with its padding branch, builds exactly `Hex` of the digest |
| `Comparator.DiffCount` | src/main/java/com/hashinglab/FileHashingLab.java:81-86 | the count is at most the length of the first string, and 0 exactly when the first string is a prefix of the second |
| `Comparator.DiffCountPositions` | src/main/java/com/hashinglab/FileHashingLab.java:81-86 | the count equals the number of indices of the first string where the characters differ |
| `Comparator.DiffCountExactly` | src/main/java/com/hashinglab/FileHashingLab.java:81-87 | equal-length strings that differ at exactly the positions of a set p are counted exactly as many positions apart as p has elements |
| `Comparator.DiffCountSymmetric` | src/main/java/com/hashinglab/FileHashingLab.java:82-86 | for equal-length strings the count is the same with the arguments swapped |
| `Comparator.DiffCountOneChange` | src/main/java/com/hashinglab/FileHashingLab.java:82-86 | replacing one character by a different one gives a count of exactly 1 |
| `Comparator.Compare` | src/main/java/com/hashinglab/FileHashingLab.java:78-88 | identical exactly when the strings are equal; `charAt` goes out of bounds, at the index equal to the length of hash2, exactly when they differ and hash2 is shorter; otherwise the count is the number of indices of hash1 where the characters differ, at most the length of hash1, and at least 1 for equal lengths |
| `Comparator.PrefixDiffersByNothing` | src/main/java/com/hashinglab/FileHashingLab.java:80-86 | the comparison reports not identical with 0 differing characters exactly when the first string is a proper prefix of the second |
| `Comparator.CountDifferences` | src/main/java/com/hashinglab/FileHashingLab.java:81-86 | the counting loop, given a second string at least as long as the first, returns the number of differing positions |
| `Report.ReportLayout` | src/main/java/com/hashinglab/FileHashingLab.java:38-41 | the report is the 14-character label line, then the hash at offset 14, then "\n\n", then the date label and the timestamp at the end |
| `Report.ParseReportText` | src/main/java/com/hashinglab/FileHashingLab.java:39-41 | a report whose hash holds no line break reads back as exactly that hash and timestamp |
| `Report.ReportTextParse` | src/main/java/com/hashinglab/FileHashingLab.java:39-41 | any text that reads back as a report is exactly the report of the hash and timestamp it reads back as |
| `Lab.GenerateHash` | src/main/java/com/hashinglab/FileHashingLab.java:16-34 | the hash of any content is 64 lower-case hex characters that decode to its 32-byte digest |
| `Lab.GenerateHashEqual` | src/main/java/com/hashinglab/FileHashingLab.java:16-34 | two contents get equal hex hashes if and only if their digests are equal |
| `Lab.AppendSpace` | src/main/java/com/hashinglab/FileHashingLab.java:122-123 | the modified content is one byte longer, keeps the original as prefix and ends in the space byte 0x20 |
| `Lab.AppendSpaceInjective` | src/main/java/com/hashinglab/FileHashingLab.java:123 | the modification always changes the content, and distinct contents stay distinct |
| `Lab.CompareDigestHashes` | src/main/java/com/hashinglab/FileHashingLab.java:78-88 | comparing the hex hashes of two digests never goes out of bounds, is identical exactly when the digests are equal, and otherwise counts the differing hex positions, 1 to 64 of them |
| `Lab.HashAndReport` | src/main/java/com/hashinglab/FileHashingLab.java:101-106 | the hash is 64 characters decoding to the content's digest, and the saved report reads back as that hash and the timestamp |
| `Lab.RunLab` | src/main/java/com/hashinglab/FileHashingLab.java:92-133 | the run hashes and reports the original and the modified content, the modified content is the original with the space byte appended, and the comparison is `compareHashes` on the two hashes: never out of bounds, identical exactly when the digests agree, and otherwise 1 to 64 |

## Left out

- SHA-256 itself (`MessageDigest`, lines 17 and 23): a library primitive, here the parameter `sha256` returning a 32-byte `Digest`; the `NoSuchAlgorithmException` it may throw is not modelled.
- File reads and writes (`Files.readAllBytes`, `FileWriter`, `Files.write`): I/O; the model takes and returns the byte and text values instead, and the read and write errors are not modelled.
- `uploadToS3` (lines 46-67): a network call into the AWS SDK whose failures are logged and swallowed; it has no logic of its own.
- `LocalDateTime.now()` (line 41): the wall clock; the timestamp text is a parameter.
- Console output, separator lines and the `try`/`catch` of `main`: presentation. The exception `Comparator.Compare` reports as `IndexOutOfBounds` would end in that `catch`.
- Lab.AppendSpace: works on bytes, treating `new String(bytes)` followed by `getBytes()` (lines 122-123) as the identity, which holds for content valid in the platform charset such as ASCII text; other content may have bytes replaced by that round trip.
- Comparator.Compare: strings are modelled as sequences of characters, not of UTF-16 code units, so `length()` and `charAt` agree with Java only on text inside the Basic Multilingual Plane; text with supplementary characters (where Java counts two units per character) may throw in Java where the model does not. Hex digests are plain ASCII, so the run is unaffected.
- JavaLang.ToHexString: is defined on non-negative values only; the two's-complement rendering of negative ints is never reached because the byte is masked first.
- The avalanche effect: a probabilistic property of SHA-256, not provable about an uninterpreted digest.
