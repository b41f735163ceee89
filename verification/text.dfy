/** Text helpers shared by the document and the console report:
    Python's `c * n` rules, the three-line section banner, and `str.split(sep)`. */
module Text {

  /** Python's `c * w`: a rule of `w` copies of the character `c`. */
  function Rule(c: char, w: nat): (r: string)
    ensures |r| == w
    ensures forall i :: 0 <= i < |r| ==> r[i] == c
  {
    seq(w, _ => c)
  }

  /** The banner that opens every report section: a rule of `*`, the title, a rule of `-`,
      each followed by a newline. */
  function Banner(w: nat, title: string): (r: string)
    ensures |r| == 2 * w + |title| + 3
  {
    Rule('*', w) + "\n" + title + "\n" + Rule('-', w) + "\n"
  }

  /** Python's `s.split(sep)` with an explicit one-character separator: the pieces between
      separators, empty pieces included, so there is always at least one piece. */
  function Split(s: string, sep: char): (parts: seq<string>)
    ensures |parts| >= 1
    ensures forall i :: 0 <= i < |parts| ==> sep !in parts[i]
    decreases |s|
  {
    if s == [] then [[]]
    else
      var rest := Split(s[1..], sep);
      if s[0] == sep then [[]] + rest
      else [[s[0]] + rest[0]] + rest[1..]
  }

  /** Python's `sep.join(parts)`, the inverse of Split. */
  function Join(parts: seq<string>, sep: char): string
    requires |parts| >= 1
    decreases |parts|
  {
    if |parts| == 1 then parts[0] else parts[0] + [sep] + Join(parts[1..], sep)
  }

  /** Joining the pieces of a split gives back the original text. */
  lemma {:induction false} SplitJoin(s: string, sep: char)
    ensures Join(Split(s, sep), sep) == s
    decreases |s|
  {
    if s != [] {
      var rest := Split(s[1..], sep);
      SplitJoin(s[1..], sep);
      if s[0] == sep {
        assert ([[]] + rest)[1..] == rest;
        assert Join([[]] + rest, sep) == [] + [sep] + Join(rest, sep);
        assert s == [s[0]] + s[1..];
      } else if |rest| == 1 {
        assert Join(rest, sep) == rest[0];
        assert s == [s[0]] + s[1..];
      } else {
        var head := [[s[0]] + rest[0]] + rest[1..];
        assert head[1..] == rest[1..];
        assert Join(head, sep) == [s[0]] + rest[0] + [sep] + Join(rest[1..], sep);
        assert Join(rest, sep) == rest[0] + [sep] + Join(rest[1..], sep);
        assert s == [s[0]] + s[1..];
      }
    }
  }

  /** Text without a separator is a single piece. */
  lemma {:induction false} SplitNoSep(s: string, sep: char)
    requires sep !in s
    ensures Split(s, sep) == [s]
    decreases |s|
  {
    if s != [] {
      SplitNoSep(s[1..], sep);
      assert s == [s[0]] + s[1..];
    }
  }

  /** Concatenation is associative. */
  lemma Assoc<T>(x: seq<T>, y: seq<T>, z: seq<T>)
    ensures x + (y + z) == (x + y) + z
  {
  }

  /** Splitting at a separator splits the two sides independently. */
  lemma {:induction false} SplitConcat(a: string, b: string, sep: char)
    ensures Split(a + [sep] + b, sep) == Split(a, sep) + Split(b, sep)
    decreases |a|
  {
    var s := a + [sep] + b;
    if a == [] {
      assert s[0] == sep && s[1..] == b;
      assert Split(s, sep) == [[]] + Split(b, sep);
    } else {
      assert s[0] == a[0] && s[1..] == a[1..] + [sep] + b;
      SplitConcat(a[1..], b, sep);
      var left := Split(a[1..], sep);
      var rest := Split(s[1..], sep);
      assert rest == left + Split(b, sep);
      if a[0] == sep {
        assert Split(s, sep) == [[]] + rest;
        assert Split(a, sep) == [[]] + left;
        Assoc([[]], left, Split(b, sep));
      } else {
        assert rest[0] == left[0];
        assert rest[1..] == left[1..] + Split(b, sep);
        assert Split(s, sep) == [[a[0]] + left[0]] + rest[1..];
        assert Split(a, sep) == [[a[0]] + left[0]] + left[1..];
        Assoc([[a[0]] + left[0]], left[1..], Split(b, sep));
      }
    }
  }

  /** Splitting a join of separator-free pieces gives back the pieces. */
  lemma {:induction false} JoinSplit(parts: seq<string>, sep: char)
    requires |parts| >= 1
    requires forall i :: 0 <= i < |parts| ==> sep !in parts[i]
    ensures Split(Join(parts, sep), sep) == parts
    decreases |parts|
  {
    SplitNoSep(parts[0], sep);
    if |parts| > 1 {
      JoinSplit(parts[1..], sep);
      SplitConcat(parts[0], Join(parts[1..], sep), sep);
      assert parts == [parts[0]] + parts[1..];
    }
  }

  /** A banner followed by a body reads, line by line, as the `*` rule, the title, the `-` rule
      and then the body's own lines. */
  lemma BannerLines(w: nat, title: string, body: string)
    requires '\n' !in title
    ensures Split(Banner(w, title) + body, '\n') == [Rule('*', w), title, Rule('-', w)] + Split(body, '\n')
  {
    var stars, dashes := Rule('*', w), Rule('-', w);
    assert '\n' !in stars && '\n' !in dashes;
    SplitNoSep(stars, '\n');
    SplitNoSep(title, '\n');
    SplitNoSep(dashes, '\n');
    var tail := dashes + "\n" + body;
    var middle := title + "\n" + tail;
    assert Banner(w, title) + body == stars + ['\n'] + middle;
    SplitConcat(stars, middle, '\n');
    assert middle == title + ['\n'] + tail;
    SplitConcat(title, tail, '\n');
    assert tail == dashes + ['\n'] + body;
    SplitConcat(dashes, body, '\n');
  }
}
