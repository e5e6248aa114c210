/** The response renderer: `Response.statusCode`, `Response.proto` and
    `Response.FormatOutput`, as a pure function from a response, the two display
    switches and the header enumeration order to the texts printed, one per
    print call, each with its trailing newline. */
module Rendering {
  import opened Wrappers
  import opened Text
  import opened Headers
  import Colors

  /** What a request produced, as printed. `timeLoad` is in nanoseconds. */
  datatype Response = Response(
    protocol: string,
    code: int,
    status: string,
    finalLink: string,
    redirectLink: string,
    header: Header,
    body: Bytes,
    timeLoad: int)

  /** The `*AllHeaders` and `*WithoutBody` switches. */
  datatype DisplayOptions = DisplayOptions(allHeaders: bool, withoutBody: bool)

  /** Library routines the renderer calls but this model does not define:
      `decodeUnicodeEscapes` (None for a failed `strconv.Unquote`) and
      `time.Duration.String`. The decoded text is held as characters, not as
      the UTF-8 bytes Go would print for it. */
  datatype Library = Library(
    decodeUnicodeEscapes: Bytes -> Option<string>,
    durationString: int -> string)

  /** The colouring of the status text. */
  datatype Tone = Success | Caution | Error

  function Classify(code: int): (t: Tone)
    ensures t == Success <==> 200 <= code < 300
    ensures t == Caution <==> 300 <= code < 400
    ensures t == Error <==> code < 200 || 400 <= code
  {
    if 200 <= code < 300 then Success
    else if 300 <= code < 400 then Caution
    else Error
  }

  function ToneCode(t: Tone): string {
    match t
    case Success => Colors.LightGreenCode
    case Caution => Colors.OrangeCode
    case Error => Colors.LightRedCode
  }

  /** Reads the tone back off a coloured text. */
  function ToneOf(text: string): Option<Tone> {
    if Colors.LightGreenCode <= text then Some(Success)
    else if Colors.OrangeCode <= text then Some(Caution)
    else if Colors.LightRedCode <= text then Some(Error)
    else None
  }

  /** `Response.statusCode`: the status text, coloured by the code alone. */
  function StatusCode(r: Response): (text: string)
    ensures Colors.Unwrap(ToneCode(Classify(r.code)), text) == Some(r.status)
    ensures ToneOf(text) == Some(Classify(r.code))
  {
    Colors.StatusCodesDistinct(r.status);
    if 200 <= r.code && r.code < 300 then Colors.LightGreen(r.status)
    else if 300 <= r.code && r.code < 400 then Colors.Orange(r.status)
    else Colors.LightRed(r.status)
  }

  /** `Response.proto`. */
  function Proto(r: Response): (text: string)
    ensures Colors.Unwrap(Colors.LightBlueCode, text) == Some(r.protocol)
  {
    Colors.LightBlue(r.protocol)
  }

  /** Two responses that differ only in their status text get the same tone. */
  lemma ToneIgnoresStatusText(r: Response, status: string)
    ensures ToneOf(StatusCode(r)) == ToneOf(StatusCode(r.(status := status)))
  {
  }

  function StatusLine(r: Response): string {
    Proto(r) + " " + StatusCode(r) + "\n"
  }

  /** The first printed line: the protocol in light blue, one space, the status
      text in the colour of its code, and the newline. */
  lemma StatusLineShape(r: Response)
    ensures var line := StatusLine(r);
      var p := |Colors.LightBlueCode| + |r.protocol| + |Colors.Reset|;
      && |line| > p + 1
      && Colors.Unwrap(Colors.LightBlueCode, line[..p]) == Some(r.protocol)
      && line[p] == ' '
      && Colors.Unwrap(ToneCode(Classify(r.code)), line[p + 1..|line| - 1]) == Some(r.status)
      && line[|line| - 1] == '\n'
  {
    var proto := Proto(r);
    var status := StatusCode(r);
    var line := StatusLine(r);
    assert line[..|proto|] == proto;
    assert line[|proto| + 1..|line| - 1] == status;
  }

  function FinalLine(link: string): string {
    Println(["Final url: ", link])
  }

  function RedirectLine(link: string): string {
    Println(["Redirect url: ", link])
  }

  function TimeLine(elapsed: string): string {
    Println(["Response time: ", elapsed])
  }

  /** The three labelled lines: label, Println's operand space after the
      label's own trailing space, the value, and the newline. */
  lemma LabelledLineShapes(final: string, redirect: string, elapsed: string)
    ensures FinalLine(final) == "Final url:  " + final + "\n"
    ensures RedirectLine(redirect) == "Redirect url:  " + redirect + "\n"
    ensures TimeLine(elapsed) == "Response time:  " + elapsed + "\n"
  {
    PrintlnPair("Final url: ", final);
    PrintlnPair("Redirect url: ", redirect);
    PrintlnPair("Response time: ", elapsed);
  }

  /** `fmt.Println("\n")`: the blank lines between headers and body. */
  const Separator: string := "\n\n"

  /** A status record opens with the escape byte of its colour code. */
  lemma StatusLineOpensWithEscape(r: Response)
    ensures |StatusLine(r)| > 0 && StatusLine(r)[0] == '\U{1b}'
  {
    var proto := Proto(r);
    assert Colors.LightBlueCode <= proto;
    assert StatusLine(r)[0] == proto[0];
  }

  /** The first characters of a labelled record are those of its caption. */
  lemma LabelledLineStart(caption: string, value: string, i: nat)
    requires i < |caption|
    ensures (caption + value + "\n")[i] == caption[i]
  {
  }

  /** A redirect record cannot be mistaken for any other line of the preamble. */
  lemma RedirectLineDiffers(r: Response, elapsed: string)
    ensures RedirectLine(r.redirectLink) != StatusLine(r)
    ensures RedirectLine(r.redirectLink) != FinalLine(r.finalLink)
    ensures RedirectLine(r.redirectLink) != TimeLine(elapsed)
  {
    RedirectLineStart(r.redirectLink);
    StatusLineOpensWithEscape(r);
    assert RedirectLine(r.redirectLink)[0] != StatusLine(r)[0];
    FinalLineStart(r.finalLink);
    assert RedirectLine(r.redirectLink)[0] != FinalLine(r.finalLink)[0];
    TimeLineStart(elapsed);
    assert RedirectLine(r.redirectLink)[2] != TimeLine(elapsed)[2];
  }

  lemma RedirectLineStart(link: string)
    ensures |RedirectLine(link)| > 2 && RedirectLine(link)[0] == 'R' && RedirectLine(link)[2] == 'd'
  {
    LabelledLineShapes("", link, "");
    LabelledLineStart("Redirect url:  ", link, 0);
    LabelledLineStart("Redirect url:  ", link, 2);
  }

  lemma FinalLineStart(link: string)
    ensures |FinalLine(link)| > 0 && FinalLine(link)[0] == 'F'
  {
    LabelledLineShapes(link, "", "");
    LabelledLineStart("Final url:  ", link, 0);
  }

  lemma TimeLineStart(elapsed: string)
    ensures |TimeLine(elapsed)| > 2 && TimeLine(elapsed)[2] == 's'
  {
    LabelledLineShapes("", "", elapsed);
    LabelledLineStart("Response time:  ", elapsed, 2);
  }

  /** The preamble's layout over its four records: the redirect record sits
      third, and only when there is a redirect. */
  function Arrange(status: string, final: string, redirect: string, time: string, redirected: bool): (lines: seq<string>)
    ensures |lines| == (if redirected then 4 else 3)
    ensures lines[0] == status && lines[1] == final && lines[|lines| - 1] == time
    ensures redirected ==> lines[2] == redirect
    ensures redirect in lines <==> redirected || redirect in [status, final, time]
  {
    if redirected then [status, final, redirect, time] else [status, final, time]
  }

  /** The lines before the headers: status, final url, the redirect url when
      there is one, and the response time. */
  function Preamble(r: Response, lib: Library): (lines: seq<string>)
    ensures |lines| == (if r.redirectLink != "" then 4 else 3)
    ensures lines[0] == StatusLine(r) && lines[1] == FinalLine(r.finalLink)
    ensures lines[|lines| - 1] == TimeLine(lib.durationString(r.timeLoad))
    ensures r.redirectLink != "" ==> lines[2] == RedirectLine(r.redirectLink)
    ensures RedirectLine(r.redirectLink) in lines <==> r.redirectLink != ""
  {
    RedirectLineDiffers(r, lib.durationString(r.timeLoad));
    Arrange(StatusLine(r), FinalLine(r.finalLink), RedirectLine(r.redirectLink),
            TimeLine(lib.durationString(r.timeLoad)), r.redirectLink != "")
  }


  /** No name occurs twice. */
  predicate Distinct(names: seq<string>) {
    forall i, j :: 0 <= i < j < |names| ==> names[i] != names[j]
  }

  /** `order` is one enumeration of the keys of `h`, as Go's map range yields. */
  ghost predicate IsEnumeration(order: seq<string>, h: Header) {
    Distinct(order) && forall k :: k in order <==> k in h
  }

  lemma {:induction false} DistinctCard(names: seq<string>)
    requires Distinct(names)
    ensures |set k | k in names| == |names|
    decreases |names|
  {
    if |names| > 0 {
      var tail := names[1..];
      assert Distinct(tail) by {
        forall i, j | 0 <= i < j < |tail| ensures tail[i] != tail[j] {
          assert tail[i] == names[i + 1] && tail[j] == names[j + 1];
        }
      }
      DistinctCard(tail);
      assert names == [names[0]] + tail;
      assert (set k | k in names) == {names[0]} + (set k | k in tail);
      assert names[0] !in tail by {
        forall j | 0 <= j < |tail| ensures tail[j] != names[0] {
          assert tail[j] == names[j + 1];
        }
      }
    }
  }

  /** The loop guard of the filtered view, applied along the enumeration. */
  function FilterListed(order: seq<string>): (shown: seq<string>)
    ensures forall k :: k in shown <==> k in order && k in ShortListOfHeaders
    ensures Distinct(order) ==> Distinct(shown)
    decreases |order|
  {
    if |order| == 0 then []
    else
      var rest := FilterListed(order[1..]);
      assert order == [order[0]] + order[1..];
      assert Distinct(order) ==> Distinct(order[1..]) && order[0] !in order[1..] by {
        if Distinct(order) {
          var tail := order[1..];
          forall i, j | 0 <= i < j < |tail| ensures tail[i] != tail[j] {
            assert tail[i] == order[i + 1] && tail[j] == order[j + 1];
          }
          forall j | 0 <= j < |tail| ensures tail[j] != order[0] {
            assert tail[j] == order[j + 1];
          }
        }
      }
      if Listed(order[0]) then [order[0]] + rest else rest
  }

  /** The header names printed, in the order printed. */
  function ShownOrder(order: seq<string>, all: bool): seq<string> {
    if all then order else FilterListed(order)
  }

  /** The shown names are distinct, are exactly the names of the view, and so
      number one per name of the view. */
  lemma ShownOrderFacts(order: seq<string>, h: Header, all: bool)
    requires IsEnumeration(order, h)
    ensures Distinct(ShownOrder(order, all))
    ensures forall k :: k in ShownOrder(order, all) <==> k in h && (all || k in ShortListOfHeaders)
    ensures all ==> |ShownOrder(order, all)| == |h|
    ensures !all ==> |ShownOrder(order, all)| == |set k | k in h && k in ShortListOfHeaders|
  {
    var shown := ShownOrder(order, all);
    DistinctCard(shown);
    if all {
      assert (set k | k in shown) == h.Keys;
    } else {
      assert (set k | k in shown) == (set k | k in h && k in ShortListOfHeaders);
    }
  }

  /** `shown` lists each name of the view exactly once: every name when
      `all`, otherwise the allow-listed names the header carries. */
  ghost predicate ShownNames(shown: seq<string>, h: Header, all: bool)
    ensures ShownNames(shown, h, all) ==> forall k :: k in shown ==> k in h
  {
    && Distinct(shown)
    && forall k :: k in shown <==> k in h && (all || k in ShortListOfHeaders)
  }

  /** `lines` holds one record per name of `names`, name by name. */
  predicate RecordsOf(lines: seq<string>, h: Header, names: seq<string>)
    requires forall k :: k in names ==> k in h
  {
    && |lines| == |names|
    && forall i :: 0 <= i < |lines| ==> lines[i] == HeaderLine(names[i], h[names[i]])
  }

  /** One record per name of `names`, in that order. */
  function Records(h: Header, names: seq<string>): seq<string>
    requires forall k :: k in names ==> k in h
  {
    seq(|names|, i requires 0 <= i < |names| => HeaderLine(names[i], h[names[i]]))
  }

  /** Records are one per name, and each comes from the name at its position. */
  lemma RecordsFromNames(h: Header, names: seq<string>)
    requires forall k :: k in names ==> k in h
    ensures |Records(h, names)| == |names|
    ensures forall i :: 0 <= i < |names| ==> Records(h, names)[i] == HeaderLine(names[i], h[names[i]])
  {
  }

  /** Every record of the view comes from some name of the view. */
  lemma {:induction false} RecordsFromSomeName(h: Header, order: seq<string>, all: bool)
    requires IsEnumeration(order, h)
    ensures forall k :: k in ShownOrder(order, all) ==> k in h
    ensures forall i :: 0 <= i < |Records(h, ShownOrder(order, all))| ==>
              exists k :: k in h && (all || k in ShortListOfHeaders) &&
                Records(h, ShownOrder(order, all))[i] == HeaderLine(k, h[k])
  {
    var shown := ShownOrder(order, all);
    ShownOrderFacts(order, h, all);
    var lines := Records(h, shown);
    forall i | 0 <= i < |lines|
      ensures exists k :: k in h && (all || k in ShortListOfHeaders) && lines[i] == HeaderLine(k, h[k])
    {
      var k := shown[i];
      assert k in shown;
      assert lines[i] == HeaderLine(k, h[k]);
    }
  }

  lemma RecordsCover(h: Header, names: seq<string>)
    requires forall k :: k in names ==> k in h
    ensures forall k :: k in names ==> HeaderLine(k, h[k]) in Records(h, names)
  {
    var lines := Records(h, names);
    forall k | k in names ensures HeaderLine(k, h[k]) in lines {
      var i :| 0 <= i < |names| && names[i] == k;
      assert lines[i] == HeaderLine(k, h[k]);
    }
  }

  /** The records of a view, one per shown name, collected into the facts
      `HeaderLines` promises. */
  lemma ViewRecordsFacts(h: Header, order: seq<string>, all: bool)
    requires IsEnumeration(order, h)
    ensures forall k :: k in ShownOrder(order, all) ==> k in h
    ensures all ==> |Records(h, ShownOrder(order, all))| == |h|
    ensures !all ==> |Records(h, ShownOrder(order, all))| == |set k | k in h && k in ShortListOfHeaders|
    ensures forall k :: k in h && (all || k in ShortListOfHeaders) ==>
              HeaderLine(k, h[k]) in Records(h, ShownOrder(order, all))
    ensures forall i :: 0 <= i < |Records(h, ShownOrder(order, all))| ==>
              exists k :: k in h && (all || k in ShortListOfHeaders) &&
                Records(h, ShownOrder(order, all))[i] == HeaderLine(k, h[k])
    ensures exists shown :: ShownNames(shown, h, all) && RecordsOf(Records(h, ShownOrder(order, all)), h, shown)
  {
    var shown := ShownOrder(order, all);
    ShownOrderFacts(order, h, all);
    RecordsFromNames(h, shown);
    RecordsFromSomeName(h, order, all);
    RecordsCover(h, shown);
    var lines := Records(h, shown);
    assert ShownNames(shown, h, all) && RecordsOf(lines, h, shown);
  }

  /** The header records of either view: one `name : v1,v2` record per shown
      name. The filtered view shows exactly the names of the allow-list that
      the response carries. */
  function HeaderLines(h: Header, order: seq<string>, all: bool): (lines: seq<string>)
    requires IsEnumeration(order, h)
    ensures all ==> |lines| == |h|
    ensures !all ==> |lines| == |set k | k in h && k in ShortListOfHeaders|
    ensures forall k :: k in h && (all || k in ShortListOfHeaders) ==> HeaderLine(k, h[k]) in lines
    ensures forall i :: 0 <= i < |lines| ==>
              exists k :: k in h && (all || k in ShortListOfHeaders) && lines[i] == HeaderLine(k, h[k])
    ensures exists shown :: ShownNames(shown, h, all) && RecordsOf(lines, h, shown)
  {
    ViewRecordsFacts(h, order, all);
    Records(h, ShownOrder(order, all))
  }

  /** The body record: nothing when the body is hidden; otherwise the decoded
      text, or the raw bytes verbatim when decoding fails, followed by the
      blank lines `Println(... + "\n\n")` writes. */
  function BodySection(body: Bytes, withoutBody: bool, lib: Library): (lines: seq<string>)
    ensures withoutBody <==> lines == []
    ensures !withoutBody ==> |lines| == 1 && |lines[0]| >= 3 && lines[0][|lines[0]| - 3..] == "\n\n\n"
    ensures !withoutBody ==>
      var shown := lines[0][..|lines[0]| - 3];
      match lib.decodeUnicodeEscapes(body)
      case Some(text) => shown == text
      case None => IsByteText(shown) && TextBytes(shown) == body
  {
    if withoutBody then []
    else
      var text := match lib.decodeUnicodeEscapes(body)
        case None => BytesText(body)
        case Some(decoded) => decoded;
      var line := Println([text + "\n\n"]);
      assert line == text + "\n\n\n";
      assert line[..|line| - 3] == text;
      [line]
  }

  lemma FourParts<T>(a: seq<T>, b: seq<T>, c: seq<T>, d: seq<T>)
    ensures var s := a + b + c + d;
      && |s| == |a| + |b| + |c| + |d|
      && s[..|a|] == a
      && s[|a|..|a| + |b|] == b
      && s[|a| + |b|..|a| + |b| + |c|] == c
      && s[|a| + |b| + |c|..] == d
  {
  }

  /** Where the header records start. */
  function HeadersStart(r: Response): nat {
    if r.redirectLink != "" then 4 else 3
  }

  /** `Response.FormatOutput`. */
  function FormatOutput(r: Response, opts: DisplayOptions, order: seq<string>, lib: Library): (out: seq<string>)
    requires IsEnumeration(order, r.header)
    ensures
      var start := HeadersStart(r);
      var headers := HeaderLines(r.header, order, opts.allHeaders);
      && |out| == start + |headers| + 1 + (if opts.withoutBody then 0 else 1)
      && out[start..start + |headers|] == headers
      && out[start + |headers|] == Separator
      && out[start + |headers| + 1..] == BodySection(r.body, opts.withoutBody, lib)
    ensures out[0] == StatusLine(r) && out[1] == FinalLine(r.finalLink)
    ensures r.redirectLink != "" ==> out[2] == RedirectLine(r.redirectLink)
    ensures RedirectLine(r.redirectLink) in out[..HeadersStart(r)] <==> r.redirectLink != ""
    ensures out[HeadersStart(r) - 1] == TimeLine(lib.durationString(r.timeLoad))
  {
    var pre := Preamble(r, lib);
    var headers := HeaderLines(r.header, order, opts.allHeaders);
    var body := BodySection(r.body, opts.withoutBody, lib);
    FourParts(pre, headers, [Separator], body);
    pre + headers + [Separator] + body
  }

  /** With the body hidden, what is printed does not depend on the body at all. */
  lemma HiddenBodyIrrelevant(r: Response, body: Bytes, allHeaders: bool, order: seq<string>, lib: Library)
    requires IsEnumeration(order, r.header)
    ensures FormatOutput(r, DisplayOptions(allHeaders, true), order, lib)
         == FormatOutput(r.(body := body), DisplayOptions(allHeaders, true), order, lib)
  {
  }
}
