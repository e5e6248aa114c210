/** The terminal colour wrappers of the logger package: each one puts a fixed
    ANSI escape sequence in front of its argument and the reset sequence
    `ESC[0m` after it. `\U{1b}` is the escape character written `\033` in Go. */
module Colors {
  import opened Wrappers

  const Reset: string := "\U{1b}[0m"

  const RedCode: string := "\U{1b}[0;31m"
  const GreenCode: string := "\U{1b}[0;32m"
  const YellowCode: string := "\U{1b}[0;33m"
  const BlueCode: string := "\U{1b}[0;34m"
  const LightBlueCode: string := "\U{1b}[94m"
  const LightGreenCode: string := "\U{1b}[92m"
  const OrangeCode: string := "\U{1b}[93m"
  const LightRedCode: string := "\U{1b}[91m"

  /** Strips `code` in front and `Reset` behind, if `t` has exactly that shape. */
  function Unwrap(code: string, t: string): (r: Option<string>)
    ensures r.Some? <==> |t| >= |code| + |Reset| && code <= t && t[|t| - |Reset|..] == Reset
    ensures r.Some? ==> t == code + r.value + Reset
  {
    if |t| >= |code| + |Reset| && code <= t && t[|t| - |Reset|..] == Reset then
      var middle := t[|code|..|t| - |Reset|];
      assert t == t[..|code|] + middle + t[|t| - |Reset|..];
      Some(middle)
    else
      None
  }

  /** The shape every wrapper shares. */
  function Wrap(code: string, s: string): (r: string)
    ensures |r| == |code| + |s| + |Reset|
    ensures code <= r && r[|r| - |Reset|..] == Reset
    ensures Unwrap(code, r) == Some(s)
  {
    var r := code + s + Reset;
    assert r[|code|..|r| - |Reset|] == s;
    r
  }

  function Red(s: string): (r: string)
    ensures Unwrap(RedCode, r) == Some(s)
    ensures |r| == |RedCode| + |s| + |Reset|
  {
    Wrap(RedCode, s)
  }

  function Green(s: string): (r: string)
    ensures Unwrap(GreenCode, r) == Some(s)
    ensures |r| == |GreenCode| + |s| + |Reset|
  {
    Wrap(GreenCode, s)
  }

  function Yellow(s: string): (r: string)
    ensures Unwrap(YellowCode, r) == Some(s)
    ensures |r| == |YellowCode| + |s| + |Reset|
  {
    Wrap(YellowCode, s)
  }

  function Blue(s: string): (r: string)
    ensures Unwrap(BlueCode, r) == Some(s)
    ensures |r| == |BlueCode| + |s| + |Reset|
  {
    Wrap(BlueCode, s)
  }

  function LightBlue(s: string): (r: string)
    ensures Unwrap(LightBlueCode, r) == Some(s)
    ensures |r| == |LightBlueCode| + |s| + |Reset|
  {
    Wrap(LightBlueCode, s)
  }

  function LightGreen(s: string): (r: string)
    ensures Unwrap(LightGreenCode, r) == Some(s)
    ensures |r| == |LightGreenCode| + |s| + |Reset|
  {
    Wrap(LightGreenCode, s)
  }

  function Orange(s: string): (r: string)
    ensures Unwrap(OrangeCode, r) == Some(s)
    ensures |r| == |OrangeCode| + |s| + |Reset|
  {
    Wrap(OrangeCode, s)
  }

  function LightRed(s: string): (r: string)
    ensures Unwrap(LightRedCode, r) == Some(s)
    ensures |r| == |LightRedCode| + |s| + |Reset|
  {
    Wrap(LightRedCode, s)
  }

  /** Every wrapper ends with the reset sequence. */
  lemma EndsWithReset(s: string)
    ensures forall t :: t in [Red(s), Green(s), Yellow(s), Blue(s), LightBlue(s), LightGreen(s), Orange(s), LightRed(s)]
              ==> |t| >= |Reset| && t[|t| - |Reset|..] == Reset
  {
  }

  /** A fixed wrapper never maps two texts to the same output. */
  lemma WrapInjective(code: string, s1: string, s2: string)
    requires Wrap(code, s1) == Wrap(code, s2)
    ensures s1 == s2
  {
  }

  /** The three status colours can be told apart from any of their outputs:
      no one of them is a prefix of another's output. */
  lemma StatusCodesDistinct(s: string)
    ensures !(OrangeCode <= LightGreen(s)) && !(LightRedCode <= LightGreen(s))
    ensures !(LightGreenCode <= Orange(s)) && !(LightRedCode <= Orange(s))
    ensures !(LightGreenCode <= LightRed(s)) && !(OrangeCode <= LightRed(s))
  {
    assert LightGreen(s)[3] == '2';
    assert Orange(s)[3] == '3';
    assert LightRed(s)[3] == '1';
  }
}
