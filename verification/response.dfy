/**
 * The captured HTTP response. Its headers arrive from the transport as a list
 * of (name, value) pairs and are flattened into a map with `put`, so a name
 * sent several times keeps the value of its last occurrence.
 */
module Response {

  datatype Header = Header(name: string, value: string)

  /** The status line as the transport reports it. */
  datatype StatusLine = StatusLine(statusCode: int, reasonPhrase: string)

  /**
   * Puts every header of `raw` into `m`, in list order. No name is removed,
   * and every entry afterwards is either untouched from `m` or a header of
   * the list.
   */
  function PutAll(m: map<string, string>, raw: seq<Header>): (r: map<string, string>)
    ensures m.Keys <= r.Keys
    ensures forall n :: n in r ==>
              (n in m && r[n] == m[n]) || exists i :: 0 <= i < |raw| && raw[i] == Header(n, r[n])
    decreases |raw|
  {
    if raw == [] then m
    else
      var r := PutAll(m[raw[0].name := raw[0].value], raw[1..]);
      assert forall i :: 0 <= i < |raw[1..]| ==> raw[1..][i] == raw[i + 1];
      r
  }

  /**
   * The header map built from the transport's header list, starting from an
   * empty map: every stored value was received under its name.
   */
  function Flatten(raw: seq<Header>): (headers: map<string, string>)
    ensures forall n :: n in headers ==> exists i :: 0 <= i < |raw| && raw[i] == Header(n, headers[n])
  {
    PutAll(map[], raw)
  }

  /** The names appearing in a header list. */
  function Names(raw: seq<Header>): set<string> {
    set i | 0 <= i < |raw| :: raw[i].name
  }

  /** No later header in `raw` has the name of `raw[i]`. */
  predicate IsLastOccurrence(raw: seq<Header>, i: nat)
    requires i < |raw|
  {
    forall j :: i < j < |raw| ==> raw[j].name != raw[i].name
  }

  /** Processing one more header maps its name to its value and leaves every other name alone. */
  lemma {:induction false} PutAllOneMore(m: map<string, string>, raw: seq<Header>, h: Header)
    ensures PutAll(m, raw + [h]) == PutAll(m, raw)[h.name := h.value]
    decreases |raw|
  {
    if raw == [] {
      assert [h][1..] == [];
    } else {
      assert (raw + [h])[0] == raw[0];
      assert (raw + [h])[1..] == raw[1..] + [h];
      PutAllOneMore(m[raw[0].name := raw[0].value], raw[1..], h);
    }
  }

  lemma {:induction false} PutAllKeys(m: map<string, string>, raw: seq<Header>)
    ensures PutAll(m, raw).Keys == m.Keys + Names(raw)
    decreases |raw|
  {
    if raw != [] {
      PutAllKeys(m[raw[0].name := raw[0].value], raw[1..]);
      assert Names(raw) == {raw[0].name} + Names(raw[1..]) by {
        forall n | n in Names(raw) ensures n in {raw[0].name} + Names(raw[1..]) {
          var i :| 0 <= i < |raw| && raw[i].name == n;
          if i > 0 { assert raw[1..][i - 1].name == n; }
        }
        forall n | n in Names(raw[1..]) ensures n in Names(raw) {
          var i :| 0 <= i < |raw[1..]| && raw[1..][i].name == n;
          assert raw[i + 1].name == n;
        }
      }
    }
  }

  /** After flattening, the map's names are exactly the names in the list; no list gives no map entries. */
  lemma FlattenKeys(raw: seq<Header>)
    ensures Flatten(raw).Keys == Names(raw)
    ensures raw == [] ==> Flatten(raw) == map[]
  {
    PutAllKeys(map[], raw);
  }

  /** A name that does not occur in `raw` keeps whatever `m` gave it. */
  lemma {:induction false} PutAllUntouched(m: map<string, string>, raw: seq<Header>, name: string)
    requires forall j :: 0 <= j < |raw| ==> raw[j].name != name
    ensures name in PutAll(m, raw) <==> name in m
    ensures name in m ==> PutAll(m, raw)[name] == m[name]
    decreases |raw|
  {
    if raw != [] {
      assert raw[0].name != name;
      forall j | 0 <= j < |raw[1..]| ensures raw[1..][j].name != name {
        assert raw[1..][j] == raw[j + 1];
      }
      PutAllUntouched(m[raw[0].name := raw[0].value], raw[1..], name);
    }
  }

  lemma {:induction false} PutAllLastWins(m: map<string, string>, raw: seq<Header>, i: nat)
    requires i < |raw| && IsLastOccurrence(raw, i)
    ensures raw[i].name in PutAll(m, raw) && PutAll(m, raw)[raw[i].name] == raw[i].value
    decreases |raw|
  {
    if i == 0 {
      forall j | 0 <= j < |raw[1..]| ensures raw[1..][j].name != raw[0].name {
        assert raw[1..][j] == raw[j + 1];
      }
      PutAllUntouched(m[raw[0].name := raw[0].value], raw[1..], raw[0].name);
    } else {
      assert raw[1..][i - 1] == raw[i];
      forall j | i - 1 < j < |raw[1..]| ensures raw[1..][j].name != raw[1..][i - 1].name {
        assert raw[1..][j] == raw[j + 1];
      }
      PutAllLastWins(m[raw[0].name := raw[0].value], raw[1..], i - 1);
    }
  }

  /** Last write wins: a repeated name is stored with the value of its last occurrence. */
  lemma LastWriteWins(raw: seq<Header>)
    ensures forall i :: 0 <= i < |raw| && IsLastOccurrence(raw, i) ==>
              raw[i].name in Flatten(raw) && Flatten(raw)[raw[i].name] == raw[i].value
  {
    forall i | 0 <= i < |raw| && IsLastOccurrence(raw, i)
      ensures raw[i].name in Flatten(raw) && Flatten(raw)[raw[i].name] == raw[i].value
    {
      PutAllLastWins(map[], raw, i);
    }
  }

  /**
   * A response as captured for validation. Every field is assigned once, in
   * the constructor; the header map is a value here, so later reads see
   * exactly the map the constructor built.
   */
  class ServiceResponse {
    const statusLine: StatusLine
    const headers: map<string, string>
    const rawResponse: string
    /** The transport's header list the map was built from. */
    ghost const allHeaders: seq<Header>

    ghost predicate Valid() {
      headers == Flatten(allHeaders)
    }

    constructor (statusLine: StatusLine, allHeaders: seq<Header>, body: string)
      ensures Valid()
      ensures this.statusLine == statusLine && this.allHeaders == allHeaders && rawResponse == body
    {
      this.statusLine := statusLine;
      var tempHeaders: map<string, string> := map[];
      var i := 0;
      while i < |allHeaders|
        invariant 0 <= i <= |allHeaders|
        invariant tempHeaders == PutAll(map[], allHeaders[..i])
      {
        assert allHeaders[..i + 1] == allHeaders[..i] + [allHeaders[i]];
        PutAllOneMore(map[], allHeaders[..i], allHeaders[i]);
        tempHeaders := tempHeaders[allHeaders[i].name := allHeaders[i].value];
        i := i + 1;
      }
      assert allHeaders[..i] == allHeaders;
      this.headers := tempHeaders;
      this.allHeaders := allHeaders;
      this.rawResponse := body;
    }

    /**
     * The flattened headers: one entry per name received, holding the value of
     * that name's last occurrence.
     */
    function GetHeaders(): (h: map<string, string>)
      requires Valid()
      ensures h.Keys == Names(allHeaders)
      ensures forall i :: 0 <= i < |allHeaders| && IsLastOccurrence(allHeaders, i) ==>
                allHeaders[i].name in h && h[allHeaders[i].name] == allHeaders[i].value
    {
      FlattenKeys(allHeaders);
      LastWriteWins(allHeaders);
      headers
    }
  }
}
