/** Header maps as Go's `http.Header`: a name maps to the ordered list of its
    values. Keys are taken as already canonical. */
module Headers {
  import opened Text

  type Header = map<string, seq<string>>

  /** `h[k]` in Go: the values of `k`, or none when it is absent. */
  function Values(h: Header, k: string): seq<string> {
    if k in h then h[k] else []
  }

  /** `Header.Add`: appends `v` to the values of `k`; keeps every earlier value
      and leaves every other name untouched. */
  function Add(h: Header, k: string, v: string): (r: Header)
    ensures r.Keys == h.Keys + {k}
    ensures |r[k]| == |Values(h, k)| + 1 && r[k][..|Values(h, k)|] == Values(h, k) && r[k][|Values(h, k)|] == v
    ensures forall k' :: k' in h && k' != k ==> r[k'] == h[k']
  {
    var vs := Values(h, k) + [v];
    assert vs[..|Values(h, k)|] == Values(h, k);
    h[k := vs]
  }

  /** What attaching the configured single-valued headers to `h` yields,
      independent of the order in which they are attached. */
  function Attached(h: Header, configured: map<string, string>): (r: Header)
    ensures r.Keys == h.Keys + configured.Keys
  {
    map k | k in h.Keys + configured.Keys ::
      if k in configured then Values(h, k) + [configured[k]] else h[k]
  }

  /** A header that holds, name by name, what attaching yields is `Attached`. */
  lemma AttachedByKey(r: Header, h: Header, configured: map<string, string>)
    requires r.Keys == h.Keys + configured.Keys
    requires forall k :: k in configured ==> r[k] == Values(h, k) + [configured[k]]
    requires forall k :: k in h && k !in configured ==> r[k] == h[k]
    ensures r == Attached(h, configured)
  {
    var want := Attached(h, configured);
    forall k | k in r ensures r[k] == want[k] {
      if k in configured {
        assert r[k] == Values(h, k) + [configured[k]];
      } else {
        assert r[k] == h[k];
      }
    }
  }

  /** The header loop of `makeRequestWrapper`: every configured header is added,
      in the unspecified order of Go's map iteration. */
  method AttachHeaders(h: Header, configured: map<string, string>) returns (r: Header)
    ensures r == Attached(h, configured)
    ensures forall k :: k in configured ==> k in r && r[k] == Values(h, k) + [configured[k]]
    ensures forall k :: k in h && k !in configured ==> k in r && r[k] == h[k]
    ensures forall k :: k in r ==> k in h || k in configured
  {
    r := h;
    var todo := configured.Keys;
    while todo != {}
      invariant todo <= configured.Keys
      invariant r.Keys == h.Keys + (configured.Keys - todo)
      invariant forall k :: k in configured && k !in todo ==> r[k] == Values(h, k) + [configured[k]]
      invariant forall k :: k in r && (k !in configured || k in todo) ==> r[k] == h[k]
      decreases todo
    {
      var k :| k in todo;
      r := Add(r, k, configured[k]);
      todo := todo - {k};
    }
    AttachedByKey(r, h, configured);
  }

  /** The names shown when not every header is requested. */
  const ShortListOfHeaders: seq<string> := ["Content-Type", "Accept", "Date", "Content-Length", "Connection"]

  /** Go's `slices.Index`: the first position of `k` in `list`, or -1. */
  function Index(list: seq<string>, k: string): (i: int)
    ensures -1 <= i < |list|
    ensures i == -1 <==> k !in list
    ensures i >= 0 ==> list[i] == k
    ensures forall j :: 0 <= j < i ==> list[j] != k
  {
    if |list| == 0 then -1
    else if list[0] == k then 0
    else
      var j := Index(list[1..], k);
      if j == -1 then -1 else j + 1
  }

  /** The allow-list test of the filtered view: exact string equality with one
      of the five names. */
  predicate Listed(k: string)
    ensures Listed(k) <==> k in ShortListOfHeaders
  {
    Index(ShortListOfHeaders, k) != -1
  }

  /** One printed header record: the name, ` : `, the values joined by commas,
      and the newline. */
  function HeaderLine(k: string, values: seq<string>): string {
    Println([k, ":", Join(values, ",")])
  }

  /** Every header record, whatever its values, is the name, ` : `, the values
      joined by commas, and the newline. */
  lemma HeaderLineShape(k: string, values: seq<string>)
    ensures HeaderLine(k, values) == k + " : " + Join(values, ",") + "\n"
  {
    var j := Join(values, ",");
    PrintlnTriple(k, ":", j);
    assert k + " " + ":" + " " + j + "\n" == k + " : " + j + "\n";
  }

  /** The values can be read back from a header record when none contains a comma. */
  lemma HeaderLineValues(k: string, values: seq<string>)
    requires |values| >= 1
    requires forall i :: 0 <= i < |values| ==> ',' !in values[i]
    ensures var line := HeaderLine(k, values);
      |line| >= |k| + 4 && line[..|k| + 3] == k + " : "
      && Split(line[|k| + 3..|line| - 1], ',') == values
  {
    var line := HeaderLine(k, values);
    var j := Join(values, ",");
    HeaderLineShape(k, values);
    assert line[|k| + 3..|line| - 1] == j;
    SplitJoin(values, ',');
  }
}
