/** The parts of Go's `strings`, `unicode` and `unicode/utf8` packages that the
    service registry relies on: splitting a dotted name on ".", and deciding
    whether the first rune of a name is upper case. A Go string is modelled as
    the sequence of its runes. */
module GoStrings {

  /** The separator between the segments of a dotted service name. */
  const Sep: char := '.'

  /** The rune `utf8.DecodeRuneInString` yields for an empty string. */
  const RuneError: char := '�'

  /** Upper-case letters, restricted to ASCII (see README). */
  predicate IsUpper(c: char) {
    'A' <= c <= 'Z'
  }

  /** The first rune of `s`, or RuneError when `s` is empty. */
  function FirstRune(s: string): (c: char)
    ensures s != [] ==> c == s[0]
    ensures s == [] ==> !IsUpper(c)
  {
    if s == [] then RuneError else s[0]
  }

  /** The inverse of Split: the segments glued back together with ".". */
  function Join(parts: seq<string>): string
    requires |parts| >= 1
  {
    if |parts| == 1 then parts[0] else parts[0] + [Sep] + Join(parts[1..])
  }

  /** Every segment is free of the separator. */
  predicate DotFree(parts: seq<string>) {
    forall i :: 0 <= i < |parts| ==> Sep !in parts[i]
  }

  /** `strings.Split(s, ".")`: the maximal dot-free pieces of `s`, in order.
      There is always at least one piece: the empty string splits into [""]. */
  function Split(s: string): (parts: seq<string>)
    ensures |parts| >= 1
    ensures DotFree(parts)
    ensures Join(parts) == s
    decreases |s|
  {
    if s == [] then [[]]
    else
      var rest := Split(s[1..]);
      if s[0] == Sep then [[]] + rest
      else
        var parts := [[s[0]] + rest[0]] + rest[1..];
        assert parts[1..] == rest[1..];
        assert |rest| > 1 ==> Join(rest) == rest[0] + [Sep] + Join(rest[1..]);
        parts
  }

  /** Splitting a name that starts with a dot-free word `w` puts `w` at the
      front of the first piece and leaves the other pieces alone. */
  lemma {:induction false} SplitAfterWord(w: string, t: string)
    requires Sep !in w
    ensures Split(w + t) == [w + Split(t)[0]] + Split(t)[1..]
    decreases |w|
  {
    if w != [] {
      assert (w + t)[1..] == w[1..] + t;
      SplitAfterWord(w[1..], t);
      assert [w[0]] + (w[1..] + Split(t)[0]) == w + Split(t)[0];
    } else {
      var p := Split(t);
      assert w + t == t && w + p[0] == p[0];
      assert p == [p[0]] + p[1..];
    }
  }

  /** Split undoes Join on dot-free segments: the two are inverse. */
  lemma {:induction false} SplitJoin(parts: seq<string>)
    requires |parts| >= 1 && DotFree(parts)
    ensures Split(Join(parts)) == parts
    decreases |parts|
  {
    if |parts| == 1 {
      SplitAfterWord(parts[0], []);
      assert parts[0] + [] == parts[0];
    } else {
      var t := Join(parts[1..]);
      assert Sep !in parts[0];
      assert parts[0] + [Sep] + t == parts[0] + ([Sep] + t);
      SplitAfterWord(parts[0], [Sep] + t);
      assert ([Sep] + t)[1..] == t;
      SplitJoin(parts[1..]);
      assert Split([Sep] + t) == [[]] + parts[1..];
      assert Join(parts) == parts[0] + ([Sep] + t);
      assert parts[0] + [] == parts[0];
      assert parts == [parts[0]] + parts[1..];
    }
  }

  /** Joining one more segment appends it after a separator. */
  lemma {:induction false} JoinSnoc(parts: seq<string>, last: string)
    requires |parts| >= 1
    ensures Join(parts + [last]) == Join(parts) + [Sep] + last
    decreases |parts|
  {
    if |parts| > 1 {
      assert (parts + [last])[1..] == parts[1..] + [last];
      JoinSnoc(parts[1..], last);
    }
  }

  /** Appending "." and a dot-free name adds exactly one segment. */
  lemma SplitAppend(s: string, last: string)
    requires Sep !in last
    ensures Split(s + [Sep] + last) == Split(s) + [last]
  {
    var parts := Split(s);
    JoinSnoc(parts, last);
    assert DotFree(parts + [last]) by {
      forall i | 0 <= i < |parts + [last]| ensures Sep !in (parts + [last])[i] {
        if i < |parts| { assert (parts + [last])[i] == parts[i]; }
      }
    }
    SplitJoin(parts + [last]);
  }

  /** A name splits into two or more segments exactly when it contains a ".". */
  lemma SplitSeveralIffSep(s: string)
    ensures |Split(s)| >= 2 <==> Sep in s
  {
    var parts := Split(s);
    if |parts| >= 2 {
      assert s == parts[0] + [Sep] + Join(parts[1..]);
      assert s[|parts[0]|] == Sep;
    } else {
      assert s == parts[0];
    }
  }
}
