/**
 * The input validators and sanitisers of SimpleDatabaseManager. A Dafny
 * `char` here stands for one byte of a std::string; the regular expressions
 * of the source are written out as predicates over those characters.
 */
module Validation {
  import opened Common

  predicate IsUpper(c: char) { 'A' <= c <= 'Z' }
  predicate IsLower(c: char) { 'a' <= c <= 'z' }
  predicate IsDigit(c: char) { '0' <= c <= '9' }
  predicate IsLetter(c: char) { IsUpper(c) || IsLower(c) }
  predicate IsAlnum(c: char) { IsLetter(c) || IsDigit(c) }

  predicate AllDigits(s: string)
  {
    forall i :: 0 <= i < |s| ==> IsDigit(s[i])
  }

  // ---------------------------------------------------------------------
  // Validators
  // ---------------------------------------------------------------------

  /** isValidUsername: 3 to 50 characters from [a-zA-Z0-9_]. */
  predicate IsValidUsername(username: string)
  {
    3 <= |username| <= 50 && forall i :: 0 <= i < |username| ==> IsAlnum(username[i]) || username[i] == '_'
  }

  /** isValidSessionName: 1 to 100 characters from [a-zA-Z0-9 _-]. */
  predicate IsValidSessionName(name: string)
  {
    1 <= |name| <= 100 &&
    forall i :: 0 <= i < |name| ==> IsAlnum(name[i]) || name[i] == ' ' || name[i] == '_' || name[i] == '-'
  }

  /** isValidRole */
  predicate IsValidRole(role: string)
  {
    role == "admin" || role == "analyst" || role == "viewer"
  }

  const InterfacePrefixes: seq<string> := ["eth", "wlan", "lo", "en", "wl"]

  /** isValidInterfaceName: ^(eth|wlan|lo|en|wl)[0-9]+$ — any alternative may match. */
  predicate IsValidInterfaceName(name: string)
  {
    exists p :: p in InterfacePrefixes && |p| < |name| && name[..|p|] == p && AllDigits(name[|p|..])
  }

  predicate IsEmailLocalChar(c: char) { IsAlnum(c) || c in "._%+-" }
  predicate IsEmailDomainChar(c: char) { IsAlnum(c) || c == '.' || c == '-' }

  /** [a-zA-Z0-9.-]+\.[a-zA-Z]{2,} : a non-empty domain, a dot, a top-level part of two or more letters. */
  predicate IsEmailDomain(d: string)
  {
    exists dot :: 1 <= dot < |d| && d[dot] == '.' && |d| - dot - 1 >= 2 &&
      (forall i :: 0 <= i < dot ==> IsEmailDomainChar(d[i])) &&
      (forall i :: dot < i < |d| ==> IsLetter(d[i]))
  }

  /** isValidEmail: [a-zA-Z0-9._%+-]+@[a-zA-Z0-9.-]+\.[a-zA-Z]{2,} matched against the whole text. */
  predicate IsValidEmail(email: string)
  {
    exists at :: 1 <= at < |email| && email[at] == '@' &&
      (forall i :: 0 <= i < at ==> IsEmailLocalChar(email[i])) &&
      IsEmailDomain(email[at + 1..])
  }

  const SpecialChars := "!@#$%^&*()_+-=[]{}|;:,.<>?"

  predicate IsSpecial(c: char) { c in SpecialChars }

  /** The four character classes isStrongPassword looks for. */
  datatype CharClass = Upper | Lower | Digit | Special

  predicate InClass(c: char, k: CharClass)
  {
    match k
    case Upper => IsUpper(c)
    case Lower => IsLower(c)
    case Digit => IsDigit(c)
    case Special => IsSpecial(c)
  }

  predicate HasClass(s: string, k: CharClass)
  {
    exists i :: 0 <= i < |s| && InClass(s[i], k)
  }

  /** What isStrongPassword accepts. */
  predicate StrongPassword(password: string)
  {
    |password| >= 12 && HasClass(password, Upper) && HasClass(password, Lower) &&
    HasClass(password, Digit) && HasClass(password, Special)
  }

  lemma HasClassStep(s: string, i: nat, k: CharClass)
    requires i < |s|
    ensures HasClass(s[..i + 1], k) <==> HasClass(s[..i], k) || InClass(s[i], k)
  {
    assert s[..i + 1][i] == s[i];
    if HasClass(s[..i + 1], k) && !InClass(s[i], k) {
      var j :| 0 <= j < i + 1 && InClass(s[..i + 1][j], k);
      assert s[..i][j] == s[j];
    }
    if HasClass(s[..i], k) {
      var j :| 0 <= j < i && InClass(s[..i][j], k);
      assert s[..i + 1][j] == s[j];
    }
  }

  lemma SpecialIsNotAlnum(c: char)
    requires IsSpecial(c)
    ensures !IsAlnum(c)
  {
    var i :| 0 <= i < |SpecialChars| && SpecialChars[i] == c;
    assert c < '0' || ':' <= c <= '@' || '[' <= c <= '`' || '{' <= c;
  }

  /** isStrongPassword: a length check, then one pass setting four flags. */
  method IsStrongPassword(password: string) returns (strong: bool)
    ensures strong == StrongPassword(password)
  {
    if |password| < 12 {
      return false;
    }
    var hasUpper, hasLower, hasDigit, hasSpecial := false, false, false, false;
    var i := 0;
    while i < |password|
      invariant 0 <= i <= |password|
      invariant hasUpper == HasClass(password[..i], Upper)
      invariant hasLower == HasClass(password[..i], Lower)
      invariant hasDigit == HasClass(password[..i], Digit)
      invariant hasSpecial == HasClass(password[..i], Special)
    {
      var c := password[i];
      HasClassStep(password, i, Upper);
      HasClassStep(password, i, Lower);
      HasClassStep(password, i, Digit);
      HasClassStep(password, i, Special);
      if IsSpecial(c) {
        SpecialIsNotAlnum(c);
      }
      if 'A' <= c <= 'Z' {
        hasUpper := true;
      } else if 'a' <= c <= 'z' {
        hasLower := true;
      } else if '0' <= c <= '9' {
        hasDigit := true;
      } else if c in SpecialChars {
        hasSpecial := true;
      }
      i := i + 1;
    }
    assert password[..i] == password;
    strong := hasUpper && hasLower && hasDigit && hasSpecial;
  }

  /**
   * isValidPath, its textual half. `outsideDataDir` stands for the
   * filesystem's answer to whether an absolute path lies outside the
   * application's data directory (a POSIX path is absolute when it starts with '/').
   */
  predicate IsValidPath(path: string, outsideDataDir: bool)
  {
    !Contains(path, "..") && !Contains(path, "//") && !Contains(path, "\\\\") &&
    !(|path| > 0 && path[0] == '/' && outsideDataDir)
  }

  lemma ValidPathHasNoTraversal(path: string, outsideDataDir: bool)
    requires IsValidPath(path, outsideDataDir)
    ensures forall i: nat :: !OccursAt(path, "..", i) && !OccursAt(path, "//", i) && !OccursAt(path, "\\\\", i)
  {
    ContainsIffOccurs(path, "..");
    ContainsIffOccurs(path, "//");
    ContainsIffOccurs(path, "\\\\");
  }

  /** The username pattern: length 3 to 50, letters, digits and underscores only. */
  lemma UsernameExamples()
    ensures IsValidUsername("admin_01")
    ensures !IsValidUsername("ab") && !IsValidUsername("bad name")
  {
    assert "bad name"[3] == ' ';
  }

  /** Every valid username also passes the session-name check: a shorter range over a smaller alphabet. */
  lemma UsernameIsSessionName(username: string)
    requires IsValidUsername(username)
    ensures IsValidSessionName(username)
  {
  }

  /** A valid username has nothing for sanitizeInput to strip. */
  lemma ValidUsernameIsClean(username: string)
    requires IsValidUsername(username)
    ensures Sanitized(username) == username
  {
    UsernameIsSessionName(username);
    ValidSessionNameIsClean(username);
  }

  /** A valid interface name starts with a lower-case letter and holds only letters and digits. */
  lemma InterfaceNameIsAlnum(name: string)
    requires IsValidInterfaceName(name)
    ensures |name| >= 2 && IsLower(name[0])
    ensures forall i :: 0 <= i < |name| ==> IsAlnum(name[i])
  {
    var p :| p in InterfacePrefixes && |p| < |name| && name[..|p|] == p && AllDigits(name[|p|..]);
    assert forall i :: 0 <= i < |p| ==> name[i] == p[i] && IsLower(p[i]);
    forall i | |p| <= i < |name|
      ensures IsDigit(name[i])
    {
      assert name[|p|..][i - |p|] == name[i];
    }
  }

  /** Each alternative of the interface pattern is tried: "wlan12" matches "wlan", "wl3" matches "wl". */
  lemma InterfaceNameExamples()
    ensures IsValidInterfaceName("eth0") && IsValidInterfaceName("wlan12") && IsValidInterfaceName("wl3")
  {
    assert "eth0"[..3] == "eth" && AllDigits("eth0"[3..]);
    assert "wlan12"[..4] == "wlan" && AllDigits("wlan12"[4..]);
    assert "wl3"[..2] == "wl" && AllDigits("wl3"[2..]);
  }

  /** A prefix alone is not an interface name: at least one digit must follow. */
  lemma InterfaceNameNeedsDigit()
    ensures !IsValidInterfaceName("eth")
  {
    forall p | p in InterfacePrefixes && |p| < 3
      ensures "eth"[..|p|] != p
    {
      assert p == "lo" || p == "en" || p == "wl";
      assert "eth"[..2] == "et";
    }
  }

  lemma InterfaceNameNeedsOnlyDigits()
    ensures !IsValidInterfaceName("wlanx")
  {
    assert !AllDigits("wlanx"[2..]) by { assert "wlanx"[2..][0] == 'a'; }
    assert !AllDigits("wlanx"[4..]) by { assert "wlanx"[4..][0] == 'x'; }
  }

  /** The empty text, the default email argument of createUser, is not a valid email. */
  lemma EmptyEmailIsInvalid()
    ensures !IsValidEmail("")
  {
  }

  lemma EmailExample()
    ensures IsValidEmail("ops@example.com")
  {
    var e := "ops@example.com";
    assert e[3] == '@';
    var d := e[4..];
    assert d == "example.com";
    assert d[7] == '.';
    assert IsEmailDomain(d);
  }

  // ---------------------------------------------------------------------
  // Sanitisers
  // ---------------------------------------------------------------------

  /**
   * The characters sanitizeInput removes: `c < 32` on a signed `char`, which
   * also holds for the bytes 0x80 to 0xFF, except tab, newline and carriage return.
   */
  predicate IsStripped(c: char)
  {
    (c as int < 32 || c as int >= 128) && c != '\t' && c != '\n' && c != '\r'
  }

  const MaxInputLength := 1000

  /** The text with every stripped character removed, the others kept in order. */
  function Filtered(s: string): string
  {
    if s == [] then []
    else Filtered(s[..|s| - 1]) + (if IsStripped(s[|s| - 1]) then [] else [s[|s| - 1]])
  }

  lemma FilteredStep(s: string, i: nat)
    requires i < |s|
    ensures Filtered(s[..i + 1]) == Filtered(s[..i]) + (if IsStripped(s[i]) then [] else [s[i]])
  {
    assert s[..i + 1][..i] == s[..i];
  }

  /** What sanitizeInput returns: the filtered text cut to 1000 characters. */
  function Sanitized(s: string): string
  {
    var f := Filtered(s);
    if |f| > MaxInputLength then f[..MaxInputLength] else f
  }

  /** std::replace(from, to) over a whole text. */
  function Replaced(s: string, from: char, to: char): (r: string)
    ensures |r| == |s|
  {
    seq(|s|, i requires 0 <= i < |s| => if s[i] == from then to else s[i])
  }

  /** What sanitizeLogInput returns. */
  function LogSanitized(s: string): string
  {
    Sanitized(Replaced(Replaced(Replaced(s, '|', '_'), '\n', ' '), '\r', ' '))
  }

  /** sanitizeInput: remove_if compaction in place, erase of the tail, then the length cap. */
  method SanitizeInput(input: string) returns (result: string)
    ensures result == Sanitized(input)
  {
    var a := new char[|input|](i requires 0 <= i < |input| => input[i]);
    var w, r := 0, 0;
    while r < a.Length
      invariant 0 <= w <= r <= a.Length
      invariant |Filtered(input[..r])| == w
      invariant forall k :: 0 <= k < w ==> a[k] == Filtered(input[..r])[k]
      invariant forall k :: r <= k < a.Length ==> a[k] == input[k]
    {
      FilteredStep(input, r);
      var c := a[r];
      if !IsStripped(c) {
        a[w] := c;
        w := w + 1;
      }
      r := r + 1;
    }
    assert input[..r] == input;
    assert a[..w] == Filtered(input);
    var len := if w > MaxInputLength then MaxInputLength else w;
    result := a[..len];
  }

  /** std::replace over an array in place. */
  method ReplaceAll(a: array<char>, from: char, to: char)
    modifies a
    ensures a[..] == Replaced(old(a[..]), from, to)
  {
    var i := 0;
    while i < a.Length
      invariant 0 <= i <= a.Length
      invariant forall k :: 0 <= k < i ==> a[k] == (if old(a[k]) == from then to else old(a[k]))
      invariant forall k :: i <= k < a.Length ==> a[k] == old(a[k])
    {
      if a[i] == from {
        a[i] := to;
      }
      i := i + 1;
    }
  }

  /** sanitizeLogInput: three replacements in place, then sanitizeInput. */
  method SanitizeLogInput(input: string) returns (result: string)
    ensures result == LogSanitized(input)
  {
    var a := new char[|input|](i requires 0 <= i < |input| => input[i]);
    assert a[..] == input;
    ReplaceAll(a, '|', '_');
    ReplaceAll(a, '\n', ' ');
    ReplaceAll(a, '\r', ' ');
    result := SanitizeInput(a[..]);
  }

  // ---------------------------------------------------------------------
  // Properties of the sanitisers
  // ---------------------------------------------------------------------

  /** Filtering distributes over concatenation, so relative order is kept. */
  lemma {:induction false} FilteredAppend(s: string, t: string)
    ensures Filtered(s + t) == Filtered(s) + Filtered(t)
    decreases |t|
  {
    if t == [] {
      assert s + t == s;
    } else {
      var n := |t| - 1;
      var st := s + t;
      assert st[..|st| - 1] == s + t[..n];
      assert st[|st| - 1] == t[n];
      FilteredAppend(s, t[..n]);
    }
  }

  lemma {:induction false} FilteredShorter(s: string)
    ensures |Filtered(s)| <= |s|
  {
    if s != [] {
      FilteredShorter(s[..|s| - 1]);
    }
  }

  /** Every kept character comes from the input and is not a stripped one. */
  lemma {:induction false} FilteredKeepsOnlyAllowed(s: string)
    ensures forall i :: 0 <= i < |Filtered(s)| ==> !IsStripped(Filtered(s)[i]) && Filtered(s)[i] in s
  {
    if s != [] {
      var init := s[..|s| - 1];
      FilteredKeepsOnlyAllowed(init);
      assert forall c :: c in init ==> c in s;
    }
  }

  /** A text with nothing to strip is left as it is. */
  lemma {:induction false} FilteredClean(s: string)
    requires forall i :: 0 <= i < |s| ==> !IsStripped(s[i])
    ensures Filtered(s) == s
  {
    if s != [] {
      var init := s[..|s| - 1];
      assert forall i :: 0 <= i < |init| ==> init[i] == s[i];
      FilteredClean(init);
      assert init + [s[|s| - 1]] == s;
    }
  }

  /** The sanitised text is the first min(n, 1000) of the n kept characters, and holds no stripped character. */
  lemma SanitizedShape(s: string)
    ensures var r := Sanitized(s);
      && |r| == Min(|Filtered(s)|, MaxInputLength)
      && r == Filtered(s)[..|r|]
      && forall i :: 0 <= i < |r| ==> !IsStripped(r[i])
  {
    FilteredKeepsOnlyAllowed(s);
  }

  lemma SanitizedIdempotent(s: string)
    ensures Sanitized(Sanitized(s)) == Sanitized(s)
  {
    var r := Sanitized(s);
    SanitizedShape(s);
    FilteredClean(r);
  }

  /** A valid session name has nothing to strip and is short enough, so sanitising keeps it. */
  lemma ValidSessionNameIsClean(name: string)
    requires IsValidSessionName(name)
    ensures Sanitized(name) == name
  {
    forall i | 0 <= i < |name|
      ensures !IsStripped(name[i])
    {
      var c := name[i];
      assert IsAlnum(c) || c == ' ' || c == '_' || c == '-';
      assert 32 <= c as int < 128;
    }
    FilteredClean(name);
  }

  lemma LogSanitizedHasNoSeparators(s: string)
    ensures var r := LogSanitized(s);
      forall i :: 0 <= i < |r| ==> r[i] != '|' && r[i] != '\n' && r[i] != '\r' && !IsStripped(r[i])
  {
    var t := Replaced(Replaced(Replaced(s, '|', '_'), '\n', ' '), '\r', ' ');
    assert forall c :: c in t ==> c != '|' && c != '\n' && c != '\r';
    FilteredKeepsOnlyAllowed(t);
    SanitizedShape(t);
  }
}
