/** The user record, its validation rules and its document conversion
    (backend/internal/models/user.go). */
module UserModel {
  import opened Common

  datatype User = User(
    id: string,
    username: string,
    email: string,
    password: string,
    createdAt: Timestamp,
    role: string)
  {
    /** The document written to the users collection: the six fields under their JSON names. */
    function ToMap(): (m: Document)
      ensures m.Keys == {"id", "username", "email", "password", "created_at", "role"}
      ensures forall k :: k in m && k != "created_at" ==> m[k].Str?
      ensures m["created_at"] == Time(createdAt)
    {
      map["id" := Str(id), "username" := Str(username), "email" := Str(email),
          "password" := Str(password), "created_at" := Time(createdAt), "role" := Str(role)]
    }

    /** Copies each field whose key is present with the right dynamic type; any other field
        keeps the receiver's value. */
    function FromMap(data: Document): (u: User)
      ensures !("id" in data && data["id"].Str?) ==> u.id == id
      ensures !("username" in data && data["username"].Str?) ==> u.username == username
      ensures !("email" in data && data["email"].Str?) ==> u.email == email
      ensures !("password" in data && data["password"].Str?) ==> u.password == password
      ensures !("created_at" in data && data["created_at"].Time?) ==> u.createdAt == createdAt
      ensures !("role" in data && data["role"].Str?) ==> u.role == role
      ensures "id" in data && data["id"].Str? ==> u.id == data["id"].s
      ensures "username" in data && data["username"].Str? ==> u.username == data["username"].s
      ensures "email" in data && data["email"].Str? ==> u.email == data["email"].s
      ensures "password" in data && data["password"].Str? ==> u.password == data["password"].s
      ensures "created_at" in data && data["created_at"].Time? ==> u.createdAt == data["created_at"].t
      ensures "role" in data && data["role"].Str? ==> u.role == data["role"].s
    {
      User(StrField(data, "id", id), StrField(data, "username", username), StrField(data, "email", email),
           StrField(data, "password", password), TimeField(data, "created_at", createdAt), StrField(data, "role", role))
    }
  }

  /** One string field of `FromMap`: the map's value when the key holds a string, else `current`. */
  function StrField(data: Document, key: string, current: string): string
  {
    if key in data && data[key].Str? then data[key].s else current
  }

  /** The time field of `FromMap`: the map's value when the key holds a time, else `current`. */
  function TimeField(data: Document, key: string, current: Timestamp): Timestamp
  {
    if key in data && data[key].Time? then data[key].t else current
  }

  /** Reading back the document a user was written as restores every field, whatever the
      receiver held before. */
  lemma ToMapFromMapRoundTrip(u: User, receiver: User)
    ensures receiver.FromMap(u.ToMap()) == u
  {
  }

  // ---------------------------------------------------------------- character classes

  predicate IsAsciiLetter(c: char) { 'a' <= c <= 'z' || 'A' <= c <= 'Z' }
  predicate IsAsciiDigit(c: char) { '0' <= c <= '9' }

  /** `[a-zA-Z0-9._%+-]`, the local part of an address. */
  predicate IsLocalChar(c: char)
  {
    IsAsciiLetter(c) || IsAsciiDigit(c) || c == '.' || c == '_' || c == '%' || c == '+' || c == '-'
  }

  /** `[a-zA-Z0-9.-]`, the domain of an address. */
  predicate IsDomainChar(c: char)
  {
    IsAsciiLetter(c) || IsAsciiDigit(c) || c == '.' || c == '-'
  }

  /** `[a-zA-Z0-9_-]`, a user name. */
  predicate IsUsernameChar(c: char)
  {
    IsAsciiLetter(c) || IsAsciiDigit(c) || c == '_' || c == '-'
  }

  predicate AllLocal(s: string) { forall k :: 0 <= k < |s| ==> IsLocalChar(s[k]) }
  predicate AllDomain(s: string) { forall k :: 0 <= k < |s| ==> IsDomainChar(s[k]) }
  predicate AllLetters(s: string) { forall k :: 0 <= k < |s| ==> IsAsciiLetter(s[k]) }

  // ---------------------------------------------------------------- e-mail

  /** The language of `^[a-zA-Z0-9._%+-]+@[a-zA-Z0-9.-]+\.[a-zA-Z]{2,}$`: an '@' at `i` and a
      '.' at `j` cut the address into a non-empty local part, a non-empty domain and a
      final label of at least two letters. */
  ghost predicate MatchesEmailPattern(e: string)
  {
    exists i, j | 0 < i < j < |e| :: EmailCut(e, i, j)
  }

  /** The '@' at `i` and the '.' at `j` cut `e` as the expression requires. */
  predicate EmailCut(e: string, i: nat, j: nat)
    requires i < j < |e|
  {
    e[i] == '@' && e[j] == '.' && 0 < i && i + 1 < j && |e| - j - 1 >= 2 &&
    AllLocal(e[..i]) && AllDomain(e[i + 1..j]) && AllLetters(e[j + 1..])
  }

  /** Index of the first occurrence of `c` in `s`. */
  function IndexOf(s: string, c: char): (r: Option<nat>)
    ensures r.None? <==> c !in s
    ensures r.Some? ==> r.value < |s| && s[r.value] == c && c !in s[..r.value]
  {
    if s == [] then None
    else if s[0] == c then Some(0)
    else
      match IndexOf(s[1..], c)
      case None => None
      case Some(i) => assert s[1..][..i] == s[1..i + 1]; Some(i + 1)
  }

  /** Index of the last occurrence of `c` in `s`. */
  function LastIndexOf(s: string, c: char): (r: Option<nat>)
    ensures r.None? <==> c !in s
    ensures r.Some? ==> r.value < |s| && s[r.value] == c && c !in s[r.value + 1..]
  {
    if s == [] then None
    else if s[|s| - 1] == c then Some(|s| - 1)
    else
      var r := LastIndexOf(s[..|s| - 1], c);
      assert s == s[..|s| - 1] + [s[|s| - 1]];
      r
  }

  /** Go's `isValidEmail`: the address matches the pattern above. The regular expression is
      decided by a left-to-right reading: the first '@' ends the local part, the rest must be
      domain characters, and its last '.' must be followed by two or more letters. */
  function IsValidEmail(e: string): (ok: bool)
    ensures ok <==> MatchesEmailPattern(e)
  {
    match IndexOf(e, '@')
    case None =>
      assert !MatchesEmailPattern(e);
      false
    case Some(i) =>
      EmailReading(e, i);
      ReadsAsEmail(e, i)
  }

  /** The left-to-right reading of an address whose first '@' is at `i`. */
  predicate ReadsAsEmail(e: string, i: nat)
    requires i < |e|
  {
    var d := e[i + 1..];
    0 < i && AllLocal(e[..i]) && AllDomain(d) &&
    match LastIndexOf(d, '.')
    case None => false
    case Some(k) => 0 < k && |d| - k - 1 >= 2 && AllLetters(d[k + 1..])
  }

  /** The two readings agree once the first '@' is known to sit at `i`. */
  lemma EmailReading(e: string, i: nat)
    requires i < |e| && e[i] == '@' && '@' !in e[..i]
    ensures MatchesEmailPattern(e) <==> ReadsAsEmail(e, i)
  {
    if MatchesEmailPattern(e) {
      PatternGivesReading(e, i);
    }
    if ReadsAsEmail(e, i) {
      ReadingGivesPattern(e, i);
    }
  }

  lemma PatternGivesReading(e: string, i: nat)
    requires i < |e| && e[i] == '@' && '@' !in e[..i]
    requires MatchesEmailPattern(e)
    ensures ReadsAsEmail(e, i)
  {
    var i', j :| 0 < i' < j < |e| && EmailCut(e, i', j);
    FirstAtEndsLocalPart(e, i, i');
    var d := e[i + 1..];
    assert d == e[i + 1..j] + ['.'] + e[j + 1..];
    DomainReading(e[i + 1..j], e[j + 1..]);
    assert d[j - i..] == e[j + 1..];
  }

  /** The local part has no '@', so an '@' right after it is the first one. */
  lemma FirstAtEndsLocalPart(e: string, i: nat, i': nat)
    requires i < |e| && '@' !in e[..i]
    requires i' < |e| && e[i'] == '@' && AllLocal(e[..i'])
    requires e[i] == '@'
    ensures i' == i
  {
    assert forall m :: 0 <= m < i ==> e[m] != '@' by {
      forall m | 0 <= m < i ensures e[m] != '@' { assert e[..i][m] == e[m]; }
    }
    assert forall m :: 0 <= m < i' ==> e[m] != '@' by {
      forall m | 0 <= m < i' ensures e[m] != '@' { assert IsLocalChar(e[..i'][m]); }
    }
  }

  /** Letters are domain characters, and a domain followed by another is one domain. */
  lemma AllDomainJoin(dom: string, tail: string)
    requires AllDomain(dom) && AllLetters(tail)
    ensures AllDomain(dom + ['.'] + tail)
  {
    var d := dom + ['.'] + tail;
    forall m | 0 <= m < |d| ensures IsDomainChar(d[m]) {
      if m < |dom| {
        assert d[m] == dom[m];
      } else if m > |dom| {
        assert d[m] == tail[m - |dom| - 1];
      }
    }
  }

  /** A domain followed by '.' and a run of letters is all domain characters, and that '.' is its last. */
  lemma DomainReading(dom: string, tail: string)
    requires AllDomain(dom) && AllLetters(tail)
    ensures AllDomain(dom + ['.'] + tail)
    ensures LastIndexOf(dom + ['.'] + tail, '.') == Some(|dom|)
  {
    AllDomainJoin(dom, tail);
    assert '.' !in tail by {
      forall m | 0 <= m < |tail| ensures tail[m] != '.' { assert IsAsciiLetter(tail[m]); }
    }
    LastIndexOfBeforeTail(dom, '.', tail);
  }

  lemma {:induction false} LastIndexOfBeforeTail(a: string, c: char, t: string)
    requires c !in t
    ensures LastIndexOf(a + [c] + t, c) == Some(|a|)
  {
    if t != [] {
      var s := a + [c] + t;
      assert s[..|s| - 1] == a + [c] + t[..|t| - 1];
      LastIndexOfBeforeTail(a, c, t[..|t| - 1]);
    }
  }

  lemma ReadingGivesPattern(e: string, i: nat)
    requires i < |e| && e[i] == '@'
    requires ReadsAsEmail(e, i)
    ensures MatchesEmailPattern(e)
  {
    var d := e[i + 1..];
    var k := LastIndexOf(d, '.').value;
    var j := i + 1 + k;
    var dom := e[i + 1..j];
    assert dom == d[..k];
    assert e[j + 1..] == d[k + 1..];
    assert e[j] == '.';
    assert AllDomain(dom) by {
      forall m | 0 <= m < |dom| ensures IsDomainChar(dom[m]) {
        assert dom[m] == d[m];
      }
    }
    assert EmailCut(e, i, j);
  }

  // ---------------------------------------------------------------- user name

  /** Go's `isValidUsername`: `^[a-zA-Z0-9_-]+$`. */
  function IsValidUsername(u: string): (ok: bool)
    ensures ok <==> u != [] && forall k :: 0 <= k < |u| ==> IsUsernameChar(u[k])
  {
    |u| > 0 && forall k :: 0 <= k < |u| ==> IsUsernameChar(u[k])
  }

  // ---------------------------------------------------------------- password

  /** The class a character counts for in the password check; the first matching test wins. */
  datatype RuneClass = Upper | Lower | Number | Special | Unclassified

  predicate IsUpperRune(c: char) { 'A' <= c <= 'Z' }
  predicate IsLowerRune(c: char) { 'a' <= c <= 'z' }
  predicate IsNumberRune(c: char) { '0' <= c <= '9' }
  /** Punctuation or symbol: every printable ASCII character that is neither a letter nor a digit nor the space. */
  predicate IsPunctOrSymbolRune(c: char)
  {
    '!' <= c <= '~' && !IsAsciiLetter(c) && !IsAsciiDigit(c)
  }

  /** The `switch` of the password loop: upper before lower before number before special. */
  function Classify(c: char): (k: RuneClass)
    ensures k == Upper <==> IsUpperRune(c)
    ensures k == Lower <==> !IsUpperRune(c) && IsLowerRune(c)
    ensures k == Number <==> !IsUpperRune(c) && !IsLowerRune(c) && IsNumberRune(c)
    ensures k == Special <==> !IsUpperRune(c) && !IsLowerRune(c) && !IsNumberRune(c) && IsPunctOrSymbolRune(c)
  {
    if IsUpperRune(c) then Upper
    else if IsLowerRune(c) then Lower
    else if IsNumberRune(c) then Number
    else if IsPunctOrSymbolRune(c) then Special
    else Unclassified
  }

  /** Some character of `p` counts for class `k`. */
  predicate HasClass(p: string, k: RuneClass)
  {
    exists i :: 0 <= i < |p| && Classify(p[i]) == k
  }

  /** At least six bytes and one character of each of the four classes. */
  predicate IsStrongPassword(p: string)
  {
    ByteLen(p) >= 6 && HasClass(p, Upper) && HasClass(p, Lower) && HasClass(p, Number) && HasClass(p, Special)
  }

  /** Go's `isValidPassword`: one pass over the runes raising a flag per class. */
  method IsValidPassword(password: string) returns (ok: bool)
    ensures ok <==> IsStrongPassword(password)
  {
    var hasMinLen, hasUpper, hasLower, hasNumber, hasSpecial := false, false, false, false, false;
    if ByteLen(password) >= 6 {
      hasMinLen := true;
    }
    var i := 0;
    while i < |password|
      invariant 0 <= i <= |password|
      invariant hasUpper <==> HasClass(password[..i], Upper)
      invariant hasLower <==> HasClass(password[..i], Lower)
      invariant hasNumber <==> HasClass(password[..i], Number)
      invariant hasSpecial <==> HasClass(password[..i], Special)
    {
      var c := password[i];
      assert password[..i + 1] == password[..i] + [c];
      match Classify(c) {
        case Upper => hasUpper := true;
        case Lower => hasLower := true;
        case Number => hasNumber := true;
        case Special => hasSpecial := true;
        case Unclassified =>
      }
      i := i + 1;
      assert forall k :: HasClass(password[..i], k) <==> HasClass(password[..i - 1], k) || Classify(c) == k by {
        forall k ensures HasClass(password[..i], k) <==> HasClass(password[..i - 1], k) || Classify(c) == k {
          if HasClass(password[..i], k) {
            var m :| 0 <= m < i && Classify(password[..i][m]) == k;
            if m < i - 1 { assert password[..i - 1][m] == password[..i][m]; }
          }
          if HasClass(password[..i - 1], k) {
            var m :| 0 <= m < i - 1 && Classify(password[..i - 1][m]) == k;
            assert password[..i][m] == password[..i - 1][m];
          }
          if Classify(c) == k { assert password[..i][i - 1] == c; }
        }
      }
    }
    assert password[..i] == password;
    ok := hasMinLen && hasUpper && hasLower && hasNumber && hasSpecial;
  }

  // ---------------------------------------------------------------- whole record

  /** Go's `Validate`: all four fields present, a well-formed address, a 3 to 20 byte user
      name of allowed characters, and a strong password. */
  predicate IsValidUser(u: User)
  {
    u.username != "" && u.email != "" && u.password != "" && u.role != "" &&
    IsValidEmail(u.email) &&
    3 <= ByteLen(u.username) <= 20 &&
    IsValidUsername(u.username) &&
    IsStrongPassword(u.password)
  }

  method Validate(u: User) returns (ok: bool)
    ensures ok <==> IsValidUser(u)
  {
    if u.username == "" || u.email == "" || u.password == "" || u.role == "" {
      return false;
    }
    if !IsValidEmail(u.email) {
      return false;
    }
    if ByteLen(u.username) < 3 || ByteLen(u.username) > 20 {
      return false;
    }
    if !IsValidUsername(u.username) {
      return false;
    }
    ok := IsValidPassword(u.password);
  }

  /** A valid user name is ASCII, so its 3 to 20 bytes are 3 to 20 characters. */
  lemma ValidUserNameLength(u: User)
    requires IsValidUser(u)
    ensures 3 <= |u.username| <= 20
    ensures forall k :: 0 <= k < |u.username| ==> IsUsernameChar(u.username[k])
  {
    ByteLenAscii(u.username);
  }

  /** Every accepted password is at least six bytes and mixes the four classes;
      one missing class is enough to refuse it. */
  lemma StrongPasswordNeedsAllClasses(p: string)
    ensures !HasClass(p, Special) ==> !IsStrongPassword(p)
    ensures IsStrongPassword(p) ==> |p| >= 2 && ByteLen(p) >= 6
  {
    if IsStrongPassword(p) {
      var a :| 0 <= a < |p| && Classify(p[a]) == Upper;
      var b :| 0 <= b < |p| && Classify(p[b]) == Lower;
      assert a != b;
    }
  }
}
