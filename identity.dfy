/** Identifier and password generators. Both revisions of the utilities
    define them identically. The random draws are an input: each draw is the
    index that `random.choices` picked in its alphabet. */
module Identity {
  import opened Wrappers
  import opened Text

  predicate IsUpperOrDigit(c: char) {
    ('A' <= c <= 'Z') || IsDigit(c)
  }

  predicate IsAsciiAlnum(c: char) {
    IsAsciiLetter(c) || IsDigit(c)
  }

  /** Character `d` of `string.ascii_uppercase + string.digits` (36 characters). */
  function UpperDigitAt(d: nat): (c: char)
    requires d < 36
    ensures IsUpperOrDigit(c)
  {
    if d < 26 then (('A' as int) + d) as char else DigitChar(d - 26)
  }

  /** Character `d` of `string.ascii_letters + string.digits` (62 characters). */
  function LetterDigitAt(d: nat): (c: char)
    requires d < 62
    ensures IsAsciiAlnum(c)
  {
    if d < 26 then (('a' as int) + d) as char
    else if d < 52 then (('A' as int) + (d - 26)) as char
    else DigitChar(d - 52)
  }

  /** The draws a uniform choice over an alphabet of `size` characters can make. */
  predicate DrawsBelow(draws: seq<nat>, size: nat) {
    forall k :: 0 <= k < |draws| ==> draws[k] < size
  }

  /** `generate_student_id(roll)`: "STU_" + roll + "_" + four upper-case letters or digits. */
  function GenerateStudentId(roll: string, draws: seq<nat>): (id: string)
    requires |draws| == 4 && DrawsBelow(draws, 36)
    ensures |id| == |roll| + 9
    ensures id[..4] == "STU_" && id[4..4 + |roll|] == roll && id[4 + |roll|] == '_'
    ensures forall k :: |roll| + 5 <= k < |id| ==> IsUpperOrDigit(id[k])
    ensures forall k :: 0 <= k < 4 ==> id[|roll| + 5 + k] == UpperDigitAt(draws[k])
  {
    "STU_" + roll + "_" + seq(4, k requires 0 <= k < 4 => UpperDigitAt(draws[k]))
  }

  /** Reads the roll number back out of a generated student id. */
  function RollOfStudentId(id: string): Option<string> {
    if |id| >= 9 && id[..4] == "STU_" && id[|id| - 5] == '_' then Some(id[4..|id| - 5]) else None
  }

  /** The roll number embedded in a generated id is recovered exactly. */
  lemma RollOfGeneratedId(roll: string, draws: seq<nat>)
    requires |draws| == 4 && DrawsBelow(draws, 36)
    ensures RollOfStudentId(GenerateStudentId(roll, draws)) == Some(roll)
  {
    var id := GenerateStudentId(roll, draws);
    assert id[4..|id| - 5] == id[4..4 + |roll|];
  }

  /** `generate_temp_password(length)`: `length` characters, each an ASCII
      letter or digit, the k-th being the k-th draw. */
  function GenerateTempPassword(length: nat, draws: seq<nat>): (pwd: string)
    requires |draws| == length && DrawsBelow(draws, 62)
    ensures |pwd| == length
    ensures forall k :: 0 <= k < length ==> IsAsciiAlnum(pwd[k]) && pwd[k] == LetterDigitAt(draws[k])
  {
    seq(length, k requires 0 <= k < length => LetterDigitAt(draws[k]))
  }

  /** The password length the application uses. */
  const DefaultPasswordLength: nat := 8

  /** The class id built at class creation: "class_" + whole seconds of the
      clock + "_" + one random upper-case letter. */
  function NewClassId(seconds: nat, letter: nat): (cid: string)
    requires letter < 26
    ensures |cid| >= 9
    ensures cid[..6] == "class_" && cid[|cid| - 2] == '_' && 'A' <= cid[|cid| - 1] <= 'Z'
    ensures IsDigits(cid[6..|cid| - 2]) && DigitsValue(cid[6..|cid| - 2]) == seconds
  {
    var digits := NatToString(seconds);
    var cid := "class_" + digits + "_" + [UpperDigitAt(letter)];
    assert cid[6..|cid| - 2] == digits;
    cid
  }
}
