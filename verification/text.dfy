/** Text primitives: Go byte strings as byte-per-character text, `strings.Join`,
    its inverse `Split`, and the operand spacing of `fmt.Println`. */
module Text {

  newtype byte = x: int | 0 <= x < 256

  type Bytes = seq<byte>

  /** Every character of `s` is a single byte, so `s` is the image of a byte slice. */
  predicate IsByteText(s: string) {
    forall i :: 0 <= i < |s| ==> s[i] as int < 256
  }

  /** Reads byte-per-character text back as the bytes it spells. */
  function TextBytes(s: string): (b: Bytes)
    requires IsByteText(s)
    ensures |b| == |s|
  {
    seq(|s|, i requires 0 <= i < |s| => s[i] as int as byte)
  }

  /** Go's `string(b)`: the bytes reinterpreted as text, one character per byte,
      nothing dropped or changed. */
  function BytesText(b: Bytes): (s: string)
    ensures |s| == |b|
    ensures IsByteText(s) && TextBytes(s) == b
  {
    seq(|b|, i requires 0 <= i < |b| => b[i] as int as char)
  }

  /** `s` ends with `suffix`. */
  predicate EndsWith(s: string, suffix: string) {
    |suffix| <= |s| && s[|s| - |suffix|..] == suffix
  }

  /** The summed length of `parts`. */
  function TotalLength(parts: seq<string>): nat {
    if |parts| == 0 then 0 else |parts[0]| + TotalLength(parts[1..])
  }

  /** Go's `strings.Join`: the parts with `sep` between neighbours. */
  function Join(parts: seq<string>, sep: string): string {
    if |parts| == 0 then ""
    else if |parts| == 1 then parts[0]
    else parts[0] + sep + Join(parts[1..], sep)
  }

  /** Go's `strings.Split` on a one-character separator: the maximal
      separator-free pieces, in order; never empty. */
  function Split(s: string, sep: char): (parts: seq<string>)
    ensures |parts| >= 1
    decreases |s|
  {
    if |s| == 0 then [""]
    else if s[0] == sep then [""] + Split(s[1..], sep)
    else
      var rest := Split(s[1..], sep);
      [[s[0]] + rest[0]] + rest[1..]
  }

  /** Go's `fmt.Println` on string operands: spaces between operands, then a
      newline; the operands' text comes first and the newline is the one
      character added after the separating spaces. */
  function Println(operands: seq<string>): (r: string)
    ensures |r| >= 1 && r[|r| - 1] == '\n'
    ensures |operands| >= 1 ==> operands[0] <= r
  {
    Join(operands, " ") + "\n"
  }

  /** A join is as long as its parts plus one separator per pair of neighbours. */
  lemma {:induction false} JoinLength(parts: seq<string>, sep: string)
    requires |parts| >= 1
    ensures |Join(parts, sep)| == TotalLength(parts) + (|parts| - 1) * |sep|
    decreases |parts|
  {
    if |parts| > 1 {
      JoinLength(parts[1..], sep);
      assert (|parts| - 1) * |sep| == (|parts| - 2) * |sep| + |sep|;
    }
  }

  /** A join starts with its first part and ends with its last. */
  lemma {:induction false} JoinEnds(parts: seq<string>, sep: string)
    requires |parts| >= 1
    ensures parts[0] <= Join(parts, sep)
    ensures EndsWith(Join(parts, sep), parts[|parts| - 1])
    decreases |parts|
  {
    if |parts| > 1 {
      var rest := Join(parts[1..], sep);
      JoinEnds(parts[1..], sep);
      assert parts[1..][|parts| - 2] == parts[|parts| - 1];
      var r := parts[0] + sep + rest;
      assert r[|r| - |rest|..] == rest;
    }
  }

  lemma JoinOne(a: string, sep: string)
    ensures Join([a], sep) == a
  {
  }

  lemma PrintlnPair(a: string, b: string)
    ensures Println([a, b]) == a + " " + b + "\n"
  {
    assert [a, b][1..] == [b];
    JoinOne(b, " ");
    assert Join([a, b], " ") == a + " " + Join([b], " ");
  }

  lemma PrintlnTriple(a: string, b: string, c: string)
    ensures Println([a, b, c]) == a + " " + b + " " + c + "\n"
  {
    assert [a, b, c][1..] == [b, c];
    assert [b, c][1..] == [c];
    JoinOne(c, " ");
    assert Join([b, c], " ") == b + " " + c;
    assert Join([a, b, c], " ") == a + " " + Join([b, c], " ");
  }

  lemma {:induction false} SplitWithoutSeparator(a: string, sep: char)
    requires sep !in a
    ensures Split(a, sep) == [a]
    decreases |a|
  {
    if |a| > 0 {
      SplitWithoutSeparator(a[1..], sep);
      assert [a[0]] + a[1..] == a;
    }
  }

  lemma {:induction false} SplitAfterPiece(a: string, sep: char, b: string)
    requires sep !in a
    ensures Split(a + [sep] + b, sep) == [a] + Split(b, sep)
    decreases |a|
  {
    var s := a + [sep] + b;
    if |a| == 0 {
      assert s == [sep] + b;
      assert s[1..] == b;
    } else {
      assert s[0] == a[0];
      assert s[1..] == a[1..] + [sep] + b;
      SplitAfterPiece(a[1..], sep, b);
      assert [a[0]] + a[1..] == a;
    }
  }

  /** Splitting a join on a separator that no part contains gives the parts back. */
  lemma {:induction false} SplitJoin(parts: seq<string>, sep: char)
    requires |parts| >= 1
    requires forall i :: 0 <= i < |parts| ==> sep !in parts[i]
    ensures Split(Join(parts, [sep]), sep) == parts
    decreases |parts|
  {
    if |parts| == 1 {
      SplitWithoutSeparator(parts[0], sep);
    } else {
      SplitJoin(parts[1..], sep);
      SplitAfterPiece(parts[0], sep, Join(parts[1..], [sep]));
      assert [parts[0]] + parts[1..] == parts;
    }
  }
}
