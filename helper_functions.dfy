/**
 * The input validators and small list predicates of the account module.
 * They read their arguments only; none of them changes the store.
 */
module HelperFunctions {
  import opened Wrappers
  import opened DataStore

  // ---------------------------------------------------------------------
  // Characters and lengths

  predicate IsAsciiLetter(c: char) {
    ('a' <= c <= 'z') || ('A' <= c <= 'Z')
  }

  /** `\d` in a JavaScript regular expression: the ASCII decimal digits only. */
  predicate IsAsciiDigit(c: char) {
    '0' <= c <= '9'
  }

  /** The character class `[a-zA-Z'\- ]` of the name pattern. */
  predicate IsNameChar(c: char) {
    IsAsciiLetter(c) || c == '\'' || c == '-' || c == ' '
  }

  /**
   * JavaScript's `length` of a string: the number of UTF-16 code units, so
   * a character outside the Basic Multilingual Plane counts twice.
   */
  function Utf16Length(s: string): (n: nat)
    ensures |s| <= n <= 2 * |s|
  {
    if s == [] then 0
    else (if s[0] as int >= 0x10000 then 2 else 1) + Utf16Length(s[1..])
  }

  /** On ASCII text JavaScript's length is the number of characters. */
  lemma {:induction false} Utf16LengthOfAscii(s: string)
    requires forall i :: 0 <= i < |s| ==> s[i] as int < 0x80
    ensures Utf16Length(s) == |s|
  {
    if s != [] {
      Utf16LengthOfAscii(s[1..]);
    }
  }

  // ---------------------------------------------------------------------
  // Regular-expression tests

  /** `/^[a-zA-Z'\- ]+$/.test(s)`: one or more characters, all from the class. */
  function MatchesNamePattern(s: string): (r: bool)
    ensures r <==> s != [] && forall i :: 0 <= i < |s| ==> IsNameChar(s[i])
  {
    if s == [] then false
    else IsNameChar(s[0]) && (|s| == 1 || MatchesNamePattern(s[1..]))
  }

  /** `/[A-Za-z]/.test(s)`: some character is an ASCII letter. */
  function ContainsLetter(s: string): (r: bool)
    ensures r <==> exists i :: 0 <= i < |s| && IsAsciiLetter(s[i])
  {
    if s == [] then false
    else IsAsciiLetter(s[0]) || ContainsLetter(s[1..])
  }

  /** `/\d/.test(s)`: some character is an ASCII digit. */
  function ContainsDigit(s: string): (r: bool)
    ensures r <==> exists i :: 0 <= i < |s| && IsAsciiDigit(s[i])
  {
    if s == [] then false
    else IsAsciiDigit(s[0]) || ContainsDigit(s[1..])
  }

  // ---------------------------------------------------------------------
  // Validators

  /** `checkNameIsValidInput`: 2 to 20 characters, each a letter, apostrophe, hyphen or space. */
  function CheckNameIsValidInput(name: string): (r: bool)
    ensures r <==> 2 <= |name| <= 20 && forall i :: 0 <= i < |name| ==> IsNameChar(name[i])
  {
    if MatchesNamePattern(name) then
      Utf16LengthOfAscii(name);
      !(Utf16Length(name) < 2 || Utf16Length(name) > 20)
    else
      false
  }

  /**
   * `checkValidPassword`: some ASCII letter, some ASCII digit, and at least
   * eight UTF-16 code units.
   */
  function CheckValidPassword(password: string): (r: bool)
    ensures r <==> && (exists i :: 0 <= i < |password| && IsAsciiLetter(password[i]))
                   && (exists i :: 0 <= i < |password| && IsAsciiDigit(password[i]))
                   && Utf16Length(password) >= 8
  {
    !(!ContainsLetter(password) || !ContainsDigit(password) || Utf16Length(password) < 8)
  }

  /** The password rule on its documented examples: letters, digits and length are all needed. */
  lemma PasswordExamples()
    ensures CheckValidPassword("abc12345")
    ensures !CheckValidPassword("12345678") && !CheckValidPassword("abcdefgh") && !CheckValidPassword("ab1")
  {
    var good := "abc12345";
    assert IsAsciiLetter(good[0]) && IsAsciiDigit(good[3]);
    assert Utf16Length(good) >= |good|;
    var noLetter := "12345678";
    assert forall i :: 0 <= i < |noLetter| ==> !IsAsciiLetter(noLetter[i]);
    var noDigit := "abcdefgh";
    assert forall i :: 0 <= i < |noDigit| ==> !IsAsciiDigit(noDigit[i]);
    assert Utf16Length("ab1") <= 6;
  }

  /** The name rule on its documented examples. */
  lemma NameExamples()
    ensures CheckNameIsValidInput("Anne-Marie")
    ensures !CheckNameIsValidInput("A") && !CheckNameIsValidInput("Anne3")
    ensures !CheckNameIsValidInput("Abcdefghijklmnopqrstu")
  {
    var good := "Anne-Marie";
    assert forall i :: 0 <= i < |good| ==> IsNameChar(good[i]);
    var digit := "Anne3";
    assert !IsNameChar(digit[4]);
    assert |"Abcdefghijklmnopqrstu"| == 21;
  }

  // ---------------------------------------------------------------------
  // Lookup by email

  /** The index `Array.prototype.find` stops at: the first user with this email. */
  function FirstIndexWithEmail(users: seq<User>, email: string): (r: Option<nat>)
    ensures r.None? <==> forall i :: 0 <= i < |users| ==> users[i].email != email
    ensures r.Some? ==> r.value < |users| && users[r.value].email == email
                        && forall j :: 0 <= j < r.value ==> users[j].email != email
  {
    if users == [] then None
    else if users[0].email == email then Some(0)
    else match FirstIndexWithEmail(users[1..], email)
      case None => None
      case Some(i) => Some(i + 1)
  }

  /** `findUserWithEmail`: the first user of the document with this email, if any. */
  function FindUserWithEmail(data: Data, email: string): (r: Option<User>)
    ensures r.None? <==> forall i :: 0 <= i < |data.users| ==> data.users[i].email != email
    ensures r.Some? ==> exists i :: 0 <= i < |data.users| && data.users[i] == r.value
                                    && r.value.email == email
                                    && forall j :: 0 <= j < i ==> data.users[j].email != email
  {
    match FirstIndexWithEmail(data.users, email)
    case None => None
    case Some(i) => Some(data.users[i])
  }

  // ---------------------------------------------------------------------
  // Answer options

  /** One answer option of a question: its text and whether it is a correct answer. */
  datatype AnswerOption = AnswerOption(answer: string, correct: bool)

  /** `answerOptions.map(option => option.answer)` */
  function Answers(options: seq<AnswerOption>): (r: seq<string>)
    ensures |r| == |options| && forall i :: 0 <= i < |r| ==> r[i] == options[i].answer
  {
    if options == [] then [] else [options[0].answer] + Answers(options[1..])
  }

  /** The elements of a sequence, as `new Set(...)` collects them. */
  function Elements<T>(s: seq<T>): set<T> {
    set x | x in s
  }

  /** A set built from a list has at most as many elements as the list, and as many exactly when the list has no repeats. */
  lemma {:induction false} ElementsSize<T>(s: seq<T>)
    ensures |Elements(s)| <= |s|
    ensures |Elements(s)| == |s| <==> forall i, j :: 0 <= i < j < |s| ==> s[i] != s[j]
  {
    if s != [] {
      var t := s[1..];
      ElementsSize(t);
      assert Elements(s) == {s[0]} + Elements(t) by {
        forall x ensures x in Elements(s) <==> x in {s[0]} + Elements(t) {
          assert x in s <==> x == s[0] || x in t;
        }
      }
      if s[0] in t {
        assert Elements(s) == Elements(t);
        var k :| 0 <= k < |t| && t[k] == s[0];
        assert s[0] == s[k + 1];
      } else {
        assert |Elements(s)| == 1 + |Elements(t)|;
        if |Elements(s)| == |s| {
          forall i, j | 0 <= i < j < |s| ensures s[i] != s[j] {
            if i == 0 {
              assert s[j] == t[j - 1];
            } else {
              assert s[i] == t[i - 1] && s[j] == t[j - 1];
            }
          }
        }
      }
    }
  }

  /** `hasDuplicateStrings`: fewer distinct answers than options, i.e. two options share their answer text. */
  function HasDuplicateStrings(options: seq<AnswerOption>): (r: bool)
    ensures r <==> exists i, j :: 0 <= i < j < |options| && options[i].answer == options[j].answer
  {
    var answers := Answers(options);
    ElementsSize(answers);
    |Elements(answers)| < |options|
  }

  /** The index `answerOptions.find(a => a.correct)` stops at. */
  function FirstCorrect(options: seq<AnswerOption>): (r: Option<nat>)
    ensures r.None? <==> forall i :: 0 <= i < |options| ==> !options[i].correct
    ensures r.Some? ==> r.value < |options| && options[r.value].correct
                        && forall j :: 0 <= j < r.value ==> !options[j].correct
  {
    if options == [] then None
    else if options[0].correct then Some(0)
    else match FirstCorrect(options[1..])
      case None => None
      case Some(i) => Some(i + 1)
  }

  /** `hasCorrect`: some option is marked correct. */
  function HasCorrect(options: seq<AnswerOption>): (r: bool)
    ensures r <==> exists i :: 0 <= i < |options| && options[i].correct
  {
    FirstCorrect(options).Some?
  }
}
