/** Character-level helpers: Java's notion of a blank string, the login and
    password rules shared by registration and profile editing, and the shape
    of a session token. */
module Text {
  import opened Errors

  /** Character.isWhitespace: the Unicode space, line and paragraph separators
      except the three no-break spaces, plus the ASCII controls TAB..CR and
      FS..US. */
  predicate IsWhitespace(c: char) {
    || ('\t' <= c <= '\r')
    || ('\U{001C}' <= c <= '\U{001F}')
    || c == ' '
    || c == '\U{1680}'
    || ('\U{2000}' <= c <= '\U{2006}')
    || ('\U{2008}' <= c <= '\U{200A}')
    || c == '\U{2028}' || c == '\U{2029}'
    || c == '\U{205F}' || c == '\U{3000}'
  }

  /** String.indexOfNonWhitespace: the index of the first non-whitespace
      character, or |s| when there is none. */
  function FirstNonWhitespace(s: string): (i: nat)
    ensures i <= |s|
    ensures forall k :: 0 <= k < i ==> IsWhitespace(s[k])
    ensures i < |s| ==> !IsWhitespace(s[i])
  {
    if s == [] then 0
    else if IsWhitespace(s[0]) then 1 + FirstNonWhitespace(s[1..])
    else 0
  }

  /** String.isBlank, as Java computes it. */
  predicate IsBlank(s: string) {
    FirstNonWhitespace(s) == |s|
  }

  /** A string is blank exactly when every character in it is whitespace
      (in particular the empty string is blank). */
  lemma BlankIffAllWhitespace(s: string)
    ensures IsBlank(s) <==> forall k :: 0 <= k < |s| ==> IsWhitespace(s[k])
  {
  }

  /** String.length(): the number of UTF-16 code units, where a character
      outside the Basic Multilingual Plane takes a surrogate pair. */
  function Utf16Length(s: string): (n: nat)
    ensures |s| <= n <= 2 * |s|
    ensures n == |s| <==> forall k :: 0 <= k < |s| ==> s[k] < '\U{10000}'
  {
    if s == [] then 0
    else (if s[0] < '\U{10000}' then 1 else 2) + Utf16Length(s[1..])
  }

  /** The login rule: `login == null || login.isBlank() || login.length() < 3`
      rejects, the length counted in UTF-16 code units. */
  predicate InvalidLogin(login: Option<string>) {
    login.None? || IsBlank(login.value) || Utf16Length(login.value) < 3
  }

  /** The password rule: `senha == null || senha.isBlank()` rejects. */
  predicate InvalidPassword(senha: Option<string>) {
    senha.None? || IsBlank(senha.value)
  }

  /** What the login rule accepts: at least three UTF-16 code units, and a
      character that is not whitespace; and every such string is accepted.
      Without characters outside the Basic Multilingual Plane the length is
      the number of characters. */
  lemma ValidLoginShape(s: string)
    ensures !InvalidLogin(Some(s)) <==> Utf16Length(s) >= 3 && exists k :: 0 <= k < |s| && !IsWhitespace(s[k])
    ensures (forall k :: 0 <= k < |s| ==> s[k] < '\U{10000}') ==>
              (!InvalidLogin(Some(s)) <==> |s| >= 3 && exists k :: 0 <= k < |s| && !IsWhitespace(s[k]))
  {
    var i := FirstNonWhitespace(s);
    if i < |s| {
      assert !IsWhitespace(s[i]);
    }
  }

  /** Two characters can already make a valid login when one of them takes a
      surrogate pair, as `length()` counts it three long. */
  lemma SurrogatePairLogin()
    ensures |"a\U{1F600}"| == 2 && Utf16Length("a\U{1F600}") == 3
    ensures !InvalidLogin(Some("a\U{1F600}"))
  {
    assert Utf16Length("\U{1F600}") == 2 + Utf16Length([]);
    assert !IsWhitespace('a');
  }

  /** Decimal rendering of a natural number, as string concatenation renders a long. */
  function NatToString(n: nat): (s: string)
    ensures |s| >= 1
    ensures forall k :: 0 <= k < |s| ==> '0' <= s[k] <= '9'
  {
    if n < 10 then [Digit(n)] else NatToString(n / 10) + [Digit(n % 10)]
  }

  function Digit(d: nat): (c: char)
    requires d < 10
    ensures '0' <= c <= '9'
  {
    ['0', '1', '2', '3', '4', '5', '6', '7', '8', '9'][d]
  }

  /** generateSessionId: `login + "_" + System.currentTimeMillis()`; the clock
      reading is a parameter. */
  function SessionId(login: string, millis: nat): (t: string)
    ensures |t| > |login| + 1 && t[..|login| + 1] == login + "_"
  {
    login + "_" + NatToString(millis)
  }

  /** The index of the last occurrence of c in s, or -1. */
  function LastIndexOf(s: string, c: char): (i: int)
    ensures -1 <= i < |s|
    ensures 0 <= i ==> s[i] == c
    ensures forall k :: i < k < |s| ==> s[k] != c
  {
    if s == [] then -1
    else if s[|s| - 1] == c then |s| - 1
    else LastIndexOf(s[..|s| - 1], c)
  }

  lemma {:induction false} LastIndexOfAfter(p: string, c: char, d: string)
    requires c !in d
    ensures LastIndexOf(p + [c] + d, c) == |p|
    decreases |d|
  {
    var s := p + [c] + d;
    if d != [] {
      assert s[|s| - 1] == d[|d| - 1];
      assert s[..|s| - 1] == p + [c] + d[..|d| - 1];
      LastIndexOfAfter(p, c, d[..|d| - 1]);
    }
  }

  /** Two tokens of one login differ exactly when the clock readings differ,
      and tokens of different logins never collide: the login is recovered
      as everything before the last underscore. */
  lemma SessionIdInjective(l1: string, m1: nat, l2: string, m2: nat)
    requires SessionId(l1, m1) == SessionId(l2, m2)
    ensures l1 == l2 && NatToString(m1) == NatToString(m2)
  {
    var t := SessionId(l1, m1);
    var d1, d2 := NatToString(m1), NatToString(m2);
    assert '_' !in d1 && '_' !in d2;
    assert t == l1 + ['_'] + d1 == l2 + ['_'] + d2;
    LastIndexOfAfter(l1, '_', d1);
    LastIndexOfAfter(l2, '_', d2);
    assert t[..|l1|] == l1 && t[..|l2|] == l2;
    assert t[|l1| + 1..] == d1 && t[|l2| + 1..] == d2;
  }
}
