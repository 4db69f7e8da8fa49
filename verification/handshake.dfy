/** The text side of the TCP handshake: the server trims the request and splits it on ':'
    into a username and a password; the client sends `username:password` and a newline.
    Trim and Split are the .NET string operations, stated here as functions with the
    properties the handshake relies on. */
module Handshake {

  /** char.IsWhiteSpace: the Unicode space separators, line and paragraph separators, the
      controls U+0009 to U+000D, U+0085 and U+00A0. */
  predicate IsWhiteSpace(c: char)
  {
    var n := c as int;
    n == 0x20 || 0x09 <= n <= 0x0D || n == 0x85 || n == 0xA0 || n == 0x1680
    || 0x2000 <= n <= 0x200A || n == 0x2028 || n == 0x2029 || n == 0x202F
    || n == 0x205F || n == 0x3000
  }

  /** The index of the first non-white-space character at or after `i`, or |s|. */
  function SkipLeading(s: string, i: nat): (k: nat)
    requires i <= |s|
    ensures i <= k <= |s|
    ensures forall j | i <= j < k :: IsWhiteSpace(s[j])
    ensures k < |s| ==> !IsWhiteSpace(s[k])
    decreases |s| - i
  {
    if i == |s| || !IsWhiteSpace(s[i]) then i else SkipLeading(s, i + 1)
  }

  /** The index just past the last non-white-space character before `j`, or `lo`. */
  function SkipTrailing(s: string, lo: nat, j: nat): (k: nat)
    requires lo <= j <= |s|
    ensures lo <= k <= j
    ensures forall m | k <= m < j :: IsWhiteSpace(s[m])
    ensures lo < k ==> !IsWhiteSpace(s[k - 1])
    decreases j
  {
    if j == lo || !IsWhiteSpace(s[j - 1]) then j else SkipTrailing(s, lo, j - 1)
  }

  /** String.Trim(): the longest stretch that neither starts nor ends with white space,
      once the white space at both ends has been removed. */
  function Trim(s: string): (r: string)
    ensures |r| <= |s|
    ensures r != [] ==> !IsWhiteSpace(r[0]) && !IsWhiteSpace(r[|r| - 1])
    ensures (forall c | c in s :: IsWhiteSpace(c)) ==> r == []
    ensures exists i, j | 0 <= i <= j <= |s| :: r == s[i..j] &&
              (forall m | 0 <= m < i :: IsWhiteSpace(s[m])) &&
              (forall m | j <= m < |s| :: IsWhiteSpace(s[m]))
  {
    var i := SkipLeading(s, 0);
    var j := SkipTrailing(s, i, |s|);
    assert i < j ==> s[i..j][0] == s[i];
    assert i < j ==> s[i..j][j - i - 1] == s[j - 1];
    assert (forall c | c in s :: IsWhiteSpace(c)) ==> i == |s|;
    s[i..j]
  }

  /** How often `sep` occurs in `s`. */
  function Count(s: string, sep: char): (n: nat)
    ensures n <= |s|
    ensures n == 0 <==> sep !in s
  {
    if s == [] then 0 else (if s[0] == sep then 1 else 0) + Count(s[1..], sep)
  }

  /** String.Split(sep): the pieces between the separators, empty pieces included. */
  function Split(s: string, sep: char): (parts: seq<string>)
    ensures |parts| == Count(s, sep) + 1
    ensures forall i | 0 <= i < |parts| :: sep !in parts[i]
  {
    if s == [] then [[]]
    else
      var rest := Split(s[1..], sep);
      if s[0] == sep then [[]] + rest else [[s[0]] + rest[0]] + rest[1..]
  }

  /** String.Join(sep, parts): the inverse of Split. */
  function Join(parts: seq<string>, sep: char): string
    requires parts != []
  {
    if |parts| == 1 then parts[0] else parts[0] + [sep] + Join(parts[1..], sep)
  }

  /** Joining the pieces of a split gives the string back. */
  lemma {:induction false} JoinSplit(s: string, sep: char)
    ensures Join(Split(s, sep), sep) == s
    decreases |s|
  {
    if s != [] {
      JoinSplit(s[1..], sep);
      var rest := Split(s[1..], sep);
      if s[0] == sep {
        assert Split(s, sep) == [[]] + rest;
        assert ([[]] + rest)[1..] == rest;
      } else {
        JoinFirstPiece(s[0], rest, sep);
      }
      assert [s[0]] + s[1..] == s;
    }
  }

  /** Putting a character in front of the first piece puts it in front of the join. */
  lemma JoinFirstPiece(c: char, parts: seq<string>, sep: char)
    requires parts != []
    ensures Join([[c] + parts[0]] + parts[1..], sep) == [c] + Join(parts, sep)
  {
    var q := [[c] + parts[0]] + parts[1..];
    assert q[0] == [c] + parts[0] && q[1..] == parts[1..];
  }

  /** Splitting a join of separator-free pieces gives the pieces back. */
  lemma {:induction false} SplitJoin(parts: seq<string>, sep: char)
    requires parts != []
    requires forall i | 0 <= i < |parts| :: sep !in parts[i]
    ensures Split(Join(parts, sep), sep) == parts
    decreases |parts|
  {
    if |parts| == 1 {
      SplitNoSeparator(parts[0], sep);
    } else {
      SplitJoin(parts[1..], sep);
      SplitPrefix(parts[0], Join(parts[1..], sep), sep);
      assert [parts[0]] + parts[1..] == parts;
    }
  }

  lemma {:induction false} SplitNoSeparator(s: string, sep: char)
    requires sep !in s
    ensures Split(s, sep) == [s]
    decreases |s|
  {
    if s != [] {
      SplitNoSeparator(s[1..], sep);
      assert [s[0]] + s[1..] == s;
    }
  }

  /** A separator-free piece followed by the separator starts a new piece. */
  lemma {:induction false} SplitPrefix(a: string, b: string, sep: char)
    requires sep !in a
    ensures Split(a + [sep] + b, sep) == [a] + Split(b, sep)
    decreases |a|
  {
    var s := a + [sep] + b;
    if a == [] {
      assert s[0] == sep && s[1..] == b;
    } else {
      assert s[0] == a[0] && s[1..] == a[1..] + [sep] + b;
      SplitPrefix(a[1..], b, sep);
      var rest := Split(s[1..], sep);
      assert rest == [a[1..]] + Split(b, sep);
      assert rest[0] == a[1..] && rest[1..] == Split(b, sep);
      assert Split(s, sep) == [[a[0]] + a[1..]] + Split(b, sep);
      assert [a[0]] + a[1..] == a;
    }
  }

  /** What the handshake parse gives: the two parts, or the "Invalid format" rejection. */
  datatype Request = Credentials(username: string, password: string) | Malformed

  /** `request.Trim().Split(':')` and the check for exactly two parts. */
  function ParseRequest(request: string): (r: Request)
    ensures r.Credentials? <==> Count(Trim(request), ':') == 1
    ensures r.Credentials? ==> ':' !in r.username && ':' !in r.password
    ensures r.Credentials? ==> Trim(request) == r.username + [':'] + r.password
  {
    var parts := Split(Trim(request), ':');
    if |parts| != 2 then Malformed
    else
      JoinSplit(Trim(request), ':');
      Credentials(parts[0], parts[1])
  }

  /** The request line the client sends: `$"{username}:{password}\n"`. */
  function ClientRequest(username: string, password: string): (s: string)
    ensures |s| == |username| + |password| + 2
  {
    username + [':'] + password + ['\n']
  }

  /** The server reads back the client's credentials exactly when neither contains ':',
      the username does not start and the password does not end with white space. */
  lemma RequestRoundTrip(username: string, password: string)
    requires ':' !in username && ':' !in password
    requires username != [] ==> !IsWhiteSpace(username[0])
    requires password != [] ==> !IsWhiteSpace(password[|password| - 1])
    ensures ParseRequest(ClientRequest(username, password)) == Credentials(username, password)
  {
    var line := username + [':'] + password;
    var s := ClientRequest(username, password);
    assert s == line + ['\n'];
    TrimLine(line, '\n');
    assert Trim(s) == line;
    SplitJoin([username, password], ':');
    assert Join([username, password], ':') == line;
  }

  /** Trimming a line that neither starts nor ends with white space, followed by one white
      space character, gives the line. */
  lemma TrimLine(line: string, nl: char)
    requires line != [] && !IsWhiteSpace(line[0]) && !IsWhiteSpace(line[|line| - 1])
    requires IsWhiteSpace(nl)
    ensures Trim(line + [nl]) == line
  {
    var s := line + [nl];
    assert SkipLeading(s, 0) == 0;
    assert SkipTrailing(s, 0, |s|) == SkipTrailing(s, 0, |s| - 1) == |line|;
    assert s[0..|line|] == line;
  }
}
