/**
  How the profile controller names a stored profile image: a random number,
  a dot, and the second dot-separated segment of the uploaded file's name
  (the text "undefined" when the name has no dot).
 */
module Filenames {

  /** JavaScript's `s.split(sep)` for a one-character separator. */
  function Split(s: string, sep: char): (parts: seq<string>)
    ensures |parts| >= 1
    ensures forall i :: 0 <= i < |parts| ==> sep !in parts[i]
    decreases |s|
  {
    if s == [] then [[]]
    else
      var rest := Split(s[1..], sep);
      if s[0] == sep then [[]] + rest
      else [[s[0]] + rest[0]] + rest[1..]
  }

  /** JavaScript's `parts.join(sep)`. */
  function Join(parts: seq<string>, sep: char): (s: string)
    requires |parts| >= 1
    decreases |parts|
  {
    if |parts| == 1 then parts[0] else parts[0] + [sep] + Join(parts[1..], sep)
  }

  /** Splitting and joining again gives back the original name. */
  lemma {:induction false} JoinSplit(s: string, sep: char)
    ensures Join(Split(s, sep), sep) == s
    decreases |s|
  {
    if s != [] {
      var rest := Split(s[1..], sep);
      JoinSplit(s[1..], sep);
      if s[0] == sep {
        assert Split(s, sep) == [[]] + rest;
        assert Split(s, sep)[1..] == rest;
      } else {
        var parts := Split(s, sep);
        assert parts == [[s[0]] + rest[0]] + rest[1..];
        if |rest| == 1 {
          assert s == [s[0]] + s[1..];
        } else {
          assert parts[1..] == rest[1..];
          assert Join(rest, sep) == rest[0] + [sep] + Join(rest[1..], sep);
          assert s == [s[0]] + s[1..];
        }
      }
    }
  }

  /** A separator-free prefix joins onto the first segment of what follows it. */
  lemma {:induction false} SplitPrefix(a: string, t: string, sep: char)
    requires sep !in a
    requires t == [] || t[0] == sep
    ensures Split(a + t, sep) == [a + Split(t, sep)[0]] + Split(t, sep)[1..]
    decreases |a|
  {
    if a == [] {
      assert a + t == t;
    } else {
      var ts := Split(t, sep);
      SplitPrefix(a[1..], t, sep);
      assert (a + t)[0] == a[0] != sep;
      assert (a + t)[1..] == a[1..] + t;
      var rest := Split(a[1..] + t, sep);
      assert rest == [a[1..] + ts[0]] + ts[1..];
      assert Split(a + t, sep) == [[a[0]] + rest[0]] + rest[1..];
      assert [a[0]] + (a[1..] + ts[0]) == a + ts[0];
    }
  }

  /** Joining separator-free segments and splitting again gives back the segments. */
  lemma {:induction false} SplitJoin(parts: seq<string>, sep: char)
    requires |parts| >= 1
    requires forall i :: 0 <= i < |parts| ==> sep !in parts[i]
    ensures Split(Join(parts, sep), sep) == parts
    decreases |parts|
  {
    if |parts| == 1 {
      SplitPrefix(parts[0], [], sep);
      assert parts[0] + [] == parts[0];
    } else {
      var t := [sep] + Join(parts[1..], sep);
      SplitJoin(parts[1..], sep);
      assert t[0] == sep && t[1..] == Join(parts[1..], sep);
      assert Split(t, sep) == [[]] + parts[1..];
      var ts := Split(t, sep);
      assert ts[0] == [] && ts[1..] == parts[1..];
      SplitPrefix(parts[0], t, sep);
      assert parts[0] + ts[0] == parts[0];
      assert parts[0] + t == Join(parts, sep);
      assert parts == [parts[0]] + parts[1..];
    }
  }

  function DigitChar(d: int): (c: char)
    requires 0 <= d < 10
    ensures '0' <= c <= '9'
  {
    "0123456789"[d]
  }

  /** `String(n)` for a non-negative integer: its decimal digits. */
  function Digits(n: nat): (s: string)
    ensures |s| >= 1
    ensures forall i :: 0 <= i < |s| ==> '0' <= s[i] <= '9'
    ensures '.' !in s
  {
    if n < 10 then [DigitChar(n)] else Digits(n / 10) + [DigitChar(n % 10)]
  }

  /** The second dot-separated segment of a name, or the text "undefined" when there is none. */
  function Extension(original: string): (ext: string)
    ensures '.' !in ext
    ensures |Split(original, '.')| >= 2 ==> ext == Split(original, '.')[1]
    ensures |Split(original, '.')| == 1 ==> ext == "undefined"
  {
    var segments := Split(original, '.');
    if |segments| >= 2 then segments[1] else "undefined"
  }

  /** The stored profile file name: the random number, a dot, and the extension as above. */
  function ProfileFileName(randomNum: nat, original: string): (name: string)
    ensures Split(name, '.') == [Digits(randomNum), Extension(original)]
  {
    var name := Digits(randomNum) + "." + Extension(original);
    assert name == Join([Digits(randomNum), Extension(original)], '.');
    SplitJoin([Digits(randomNum), Extension(original)], '.');
    name
  }

  /**
    With more than one dot the kept segment is the second one, not the last:
    `photo.final.png` keeps `final`.
   */
  lemma {:induction false} ExtensionIsSecondSegment(a: string, b: string, c: string)
    requires '.' !in a && '.' !in b && '.' !in c
    ensures Extension(a + "." + b + "." + c) == b
  {
    var parts := [a, b, c];
    assert Join(parts, '.') == a + "." + b + "." + c by {
      assert Join(parts[1..], '.') == b + "." + c by {
        assert parts[1..][1..] == [c];
      }
    }
    SplitJoin(parts, '.');
  }
}
