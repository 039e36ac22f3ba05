/** The self-registration form of `src/pages/NewRegister.js`: the student-ID
    pattern, the honorific name pattern, the institutional email derived from
    the ID, and the order in which `handleSubmit` applies them. The HTTP post
    is not modelled; the outcome says what would be posted.
 */
module Registration {
  import opened Common
  import opened Text

  /** Lengths of the digit groups of `^\d{2}-\d{6}-\d{4}-\d{1}$`. */
  const IdGroups: seq<nat> := [2, 6, 4, 1]

  /** `s` is digit runs of the given lengths separated by single '-'. */
  predicate DigitGroups(s: string, groups: seq<nat>)
    decreases |groups|
  {
    if |groups| == 0 then false
    else if |groups| == 1 then |s| == groups[0] && AllDigits(s)
    else
      && |s| > groups[0]
      && AllDigits(s[..groups[0]])
      && s[groups[0]] == '-'
      && DigitGroups(s[groups[0] + 1..], groups[1..])
  }

  /** `studentIdPattern.test(trimmedId)`. */
  predicate IsValidId(trimmedId: string) {
    DigitGroups(trimmedId, IdGroups)
  }

  /** Positions of the hyphens in a valid ID. */
  predicate HyphenPosition(k: int) {
    k == 2 || k == 9 || k == 14
  }

  /** The pattern, position by position: 16 characters, '-' at 2, 9 and 14,
      decimal digits everywhere else. */
  predicate IdShape(s: string) {
    && |s| == 16
    && forall k :: 0 <= k < 16 ==> (if HyphenPosition(k) then s[k] == '-' else IsDigit(s[k]))
  }

  /** The grouped reading of the pattern and the positional one agree. */
  lemma ValidIdShape(s: string)
    ensures IsValidId(s) <==> IdShape(s)
  {
    var g := IdGroups;
    assert g[1..] == [6, 4, 1] && g[2..] == [4, 1] && g[3..] == [1];
    if IdShape(s) {
      assert AllDigits(s[..2]);
      var s1 := s[3..];
      assert AllDigits(s1[..6]) && s1[6] == '-';
      var s2 := s1[7..];
      assert AllDigits(s2[..4]) && s2[4] == '-';
      var s3 := s2[5..];
      assert |s3| == 1 && AllDigits(s3);
      assert DigitGroups(s2, [4, 1]);
      assert DigitGroups(s1, [6, 4, 1]);
    }
    if IsValidId(s) {
      var s1 := s[3..];
      var s2 := s1[7..];
      var s3 := s2[5..];
      assert DigitGroups(s1, [6, 4, 1]);
      assert DigitGroups(s2, [4, 1]);
      assert |s| == 16;
      forall k | 0 <= k < 16
        ensures if HyphenPosition(k) then s[k] == '-' else IsDigit(s[k])
      {
        if k < 2 {
          assert s[..2][k] == s[k];
        } else if 3 <= k < 9 {
          assert s1[..6][k - 3] == s[k];
        } else if 10 <= k < 14 {
          assert s2[..4][k - 10] == s[k];
        } else if k == 15 {
          assert s3[0] == s[k];
        }
      }
    }
  }

  /** The honorifics a name must start with, in the pattern's order. */
  const Mr: string := "นาย"
  const Miss: string := "นางสาว"
  const Mrs: string := "นาง"

  /** `[^\s]+ [^\s]+` as a whole string: two non-empty whitespace-free words
      separated by exactly one ordinary space. */
  predicate TwoWords(s: string) {
    var i := WordLen(s);
    0 < i < |s| - 1 && s[i] == ' ' && NoSpace(s[i + 1..])
  }

  /** `^(นาย|นางสาว|นาง)[^\s]+ [^\s]+$` on the trimmed name; the regular
      expression backtracks, so any honorific that lets the rest match will
      do. */
  predicate IsValidName(trimmedName: string) {
    || (Mr <= trimmedName && TwoWords(trimmedName[|Mr|..]))
    || (Miss <= trimmedName && TwoWords(trimmedName[|Miss|..]))
    || (Mrs <= trimmedName && TwoWords(trimmedName[|Mrs|..]))
  }

  /** The single whitespace character of `s` is an ordinary space at `i`. */
  predicate OnlySpaceAt(s: string, i: int) {
    0 <= i < |s| && s[i] == ' ' && NoSpace(s[..i]) && NoSpace(s[i + 1..])
  }

  /** The honorific in front of the words adds no whitespace. */
  lemma OnlySpaceAfterHonorific(h: string, s: string)
    requires NoSpace(h) && h <= s && TwoWords(s[|h|..])
    ensures OnlySpaceAt(s, |h| + WordLen(s[|h|..]))
  {
    var rest := s[|h|..];
    var i := WordLen(rest);
    assert s == h + rest;
    assert s[..|h| + i] == h + rest[..i];
    assert s[|h| + i + 1..] == rest[i + 1..];
  }

  /** A valid name holds exactly one whitespace character, and it is an
      ordinary space. */
  lemma ValidNameOneSpace(s: string)
    requires IsValidName(s)
    ensures exists i :: OnlySpaceAt(s, i)
  {
    if Mr <= s && TwoWords(s[|Mr|..]) {
      OnlySpaceAfterHonorific(Mr, s);
    } else if Miss <= s && TwoWords(s[|Miss|..]) {
      OnlySpaceAfterHonorific(Miss, s);
    } else {
      OnlySpaceAfterHonorific(Mrs, s);
    }
  }

  /** The rule read forwards: an honorific, a given name and a family name
      separated by one space always pass. */
  lemma HonorificNamePasses(h: string, given: string, family: string)
    requires h == Mr || h == Miss || h == Mrs
    requires given != "" && NoSpace(given) && family != "" && NoSpace(family)
    ensures IsValidName(h + given + " " + family)
  {
    var s := h + given + " " + family;
    var rest := given + " " + family;
    assert s[|h|..] == rest;
    WordLenOfWord(given, " " + family);
    assert rest == given + (" " + family);
    assert rest[|given| + 1..] == family;
  }

  /** Examples: a name with an honorific and a family name passes; no
      honorific, no family name, or a space right after "นาย" fails. */
  lemma NameExamples()
    ensures IsValidName("นายสมชาย ใจดี")
    ensures !IsValidName("สมชายใจดี")
    ensures !IsValidName("นายสมชาย")
    ensures !IsValidName("นาย สมชาย")
  {
    HonorificNamePasses(Mr, "สมชาย", "ใจดี");
    assert "นาย" + "สมชาย" + " " + "ใจดี" == "นายสมชาย ใจดี";
    NoHonorificFails();
    NoFamilyNameFails();
    SpaceAfterMrFails();
  }

  /** A name without an honorific fails. */
  lemma NoHonorificFails()
    ensures !IsValidName("สมชายใจดี")
  {
    var n := "สมชายใจดี";
    assert n[0] != Mr[0] && n[0] != Miss[0] && n[0] != Mrs[0];
  }

  /** A name without a family name fails. */
  lemma NoFamilyNameFails()
    ensures !IsValidName("นายสมชาย")
  {
    var a := "นายสมชาย";
    assert a[2] != Miss[2] && a[2] != Mrs[2];
    assert NoSpace(a[3..]);
    NoSpaceWordLen(a[3..]);
  }

  /** A space right after the honorific fails. */
  lemma SpaceAfterMrFails()
    ensures !IsValidName("นาย สมชาย")
  {
    var b := "นาย สมชาย";
    assert b[2] != Miss[2] && b[2] != Mrs[2];
    assert b[3..][0] == ' ';
  }

  /** A whitespace-free string is one word. */
  lemma NoSpaceWordLen(s: string)
    requires NoSpace(s)
    ensures WordLen(s) == |s|
  {
    WordLenOfWord(s, "");
    assert s + "" == s;
  }

  /** Because the pattern backtracks into "นาง", a space right after
      "นางสาว" still passes: "สาว" is then read as the given name. */
  lemma MissWithSpacePasses()
    ensures IsValidName("นางสาว สมศรี")
  {
    HonorificNamePasses(Mrs, "สาว", "สมศรี");
    assert "นาง" + "สาว" + " " + "สมศรี" == "นางสาว สมศรี";
  }

  /** Domain of the institutional student mailbox. */
  const MailDomain: string := "@email.kmutnb.ac.th"

  /** `trimmedId.replace(/-/g, "")`. */
  function StrippedId(trimmedId: string): (r: string)
    ensures '-' !in r
  {
    RemoveAll(trimmedId, "-")
  }

  /** `expectedEmail`: a mailbox at the institutional domain whose local
      part is "s" and the ID's digits. It holds no '-'; for a valid ID it is
      33 characters long and spells the ID back, since re-inserting the
      hyphens into characters 1 to 13 gives the ID. */
  function ExpectedEmail(trimmedId: string): (r: string)
    ensures |r| > 0 && r[0] == 's' && EndsWith(r, MailDomain)
    ensures '-' !in r
    ensures IsValidId(trimmedId) ==> |r| == 33 && AllDigits(r[1..14]) && Hyphenate(r[1..14]) == trimmedId
  {
    var r := "s" + StrippedId(trimmedId) + MailDomain;
    assert r[1..|r| - |MailDomain|] == StrippedId(trimmedId);
    if IsValidId(trimmedId) then
      StrippedValidId(trimmedId);
      r
    else r
  }

  /** Re-inserts the hyphens of the ID pattern into 13 digits. */
  function Hyphenate(digits: string): string
    requires |digits| == 13
  {
    digits[..2] + "-" + digits[2..8] + "-" + digits[8..12] + "-" + digits[12..]
  }

  /** A digit is never a hyphen. */
  predicate DashFree(w: string) {
    forall k :: 0 <= k < |w| ==> w[k] != '-'
  }

  /** The four digit groups of a valid ID, split at the hyphens. */
  lemma IdParts(s: string)
    requires IdShape(s)
    ensures s == s[..2] + "-" + s[3..9] + "-" + s[10..14] + "-" + s[15..]
    ensures DashFree(s[..2]) && DashFree(s[3..9]) && DashFree(s[10..14]) && DashFree(s[15..])
    ensures AllDigits(s[..2] + s[3..9] + s[10..14] + s[15..])
  {
    var r := s[..2] + s[3..9] + s[10..14] + s[15..];
    forall k | 0 <= k < 13
      ensures IsDigit(r[k])
    {
      if k < 2 { assert r[k] == s[k]; }
      else if k < 8 { assert r[k] == s[k + 1]; }
      else if k < 12 { assert r[k] == s[k + 2]; }
      else { assert r[k] == s[k + 3]; }
    }
  }

  /** Removing the hyphens between four hyphen-free groups concatenates
      them. */
  lemma DropHyphens(a: string, b: string, c: string, d: string)
    requires DashFree(a) && DashFree(b) && DashFree(c) && DashFree(d)
    ensures RemoveAll(a + "-" + b + "-" + c + "-" + d, "-") == a + b + c + d
  {
    var p := Other('-');
    FilterKeepsAll(a, p);
    FilterKeepsAll(b, p);
    FilterKeepsAll(c, p);
    FilterKeepsAll(d, p);
    assert Filter("-", p) == "";
    var s1 := a + "-";
    FilterAppend(a, "-", p);
    assert Filter(s1, p) == a;
    var s2 := s1 + b;
    FilterAppend(s1, b, p);
    var s3 := s2 + "-";
    FilterAppend(s2, "-", p);
    assert Filter(s3, p) == a + b;
    var s4 := s3 + c;
    FilterAppend(s3, c, p);
    var s5 := s4 + "-";
    FilterAppend(s4, "-", p);
    assert Filter(s5, p) == a + b + c;
    FilterAppend(s5, d, p);
    RemoveCharIsFilter(s5 + d, '-');
  }

  /** For a valid ID the hyphen-free part is 13 digits, and putting the
      hyphens back gives the ID: the derived email identifies the student. */
  lemma StrippedValidId(s: string)
    requires IsValidId(s)
    ensures |StrippedId(s)| == 13 && AllDigits(StrippedId(s))
    ensures Hyphenate(StrippedId(s)) == s
  {
    ValidIdShape(s);
    IdParts(s);
    var a, b, c, d := s[..2], s[3..9], s[10..14], s[15..];
    DropHyphens(a, b, c, d);
    var r := a + b + c + d;
    assert StrippedId(s) == r;
    assert r[..2] == a && r[2..8] == b && r[8..12] == c && r[12..] == d;
  }

  /** Two valid IDs with the same expected email are the same ID. */
  lemma ExpectedEmailInjective(s: string, t: string)
    requires IsValidId(s) && IsValidId(t)
    requires ExpectedEmail(s) == ExpectedEmail(t)
    ensures s == t
  {
    StrippedValidId(s);
    StrippedValidId(t);
    var es, et := ExpectedEmail(s), ExpectedEmail(t);
    assert StrippedId(s) == es[1..14];
    assert StrippedId(t) == et[1..14];
  }

  /** `isValidEmail`: the trimmed email is exactly the expected one. */
  predicate IsValidEmail(trimmedEmail: string, trimmedId: string) {
    trimmedEmail == ExpectedEmail(trimmedId)
  }

  /** What the user typed. */
  datatype RegisterForm = RegisterForm(studentId: string, fullName: string, email: string)

  /** What `handleSubmit` does: show one error, or post the trimmed form. */
  datatype SubmitOutcome =
    | BadId
    | BadName
    | BadEmail(expected: string)
    | Post(body: RegisterForm)

  /** `handleSubmit`: ID first, then name, then email; the first failing check
      decides the message and nothing is sent. */
  function Submit(form: RegisterForm): (r: SubmitOutcome)
    ensures r.BadId? <==> !IsValidId(Trim(form.studentId))
    ensures r.BadName? <==> IsValidId(Trim(form.studentId)) && !IsValidName(Trim(form.fullName))
    ensures r.BadEmail? <==>
              && IsValidId(Trim(form.studentId)) && IsValidName(Trim(form.fullName))
              && !IsValidEmail(Trim(form.email), Trim(form.studentId))
    ensures r.BadEmail? ==> r.expected == ExpectedEmail(Trim(form.studentId))
    ensures r.Post? ==> r.body == RegisterForm(Trim(form.studentId), Trim(form.fullName), Trim(form.email))
  {
    var id, name, email := Trim(form.studentId), Trim(form.fullName), Trim(form.email);
    if !IsValidId(id) then BadId
    else if !IsValidName(name) then BadName
    else if !IsValidEmail(email, id) then BadEmail(ExpectedEmail(id))
    else Post(RegisterForm(id, name, email))
  }

  /** What a posted body looks like, in terms of the three rules it passed. */
  lemma {:induction false} AcceptedFields(id: string, name: string, email: string)
    requires IsValidId(id) && IsValidName(name) && IsValidEmail(email, id)
    ensures IdShape(id)
    ensures exists i :: OnlySpaceAt(name, i)
    ensures |email| == 33 && email[..1] == "s" && email[14..] == MailDomain
    ensures AllDigits(email[1..14]) && Hyphenate(email[1..14]) == id
  {
    ValidIdShape(id);
    ValidNameOneSpace(name);
    StrippedValidId(id);
    assert email[1..14] == StrippedId(id);
  }

  /** Everything that is posted satisfies all three rules: a 16-character ID,
      a name with a single space, and a 33-character institutional email that
      spells the ID's digits. */
  lemma PostedFormIsWellFormed(form: RegisterForm)
    requires Submit(form).Post?
    ensures var body := Submit(form).body;
            && IdShape(body.studentId)
            && (exists i :: OnlySpaceAt(body.fullName, i))
            && |body.email| == 33
            && body.email[..1] == "s"
            && AllDigits(body.email[1..14])
            && body.email[14..] == MailDomain
            && Hyphenate(body.email[1..14]) == body.studentId
  {
    var body := Submit(form).body;
    AcceptedFields(body.studentId, body.fullName, body.email);
  }
}
