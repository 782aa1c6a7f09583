/**
 * The devtools RPC state of `setupRPC`: the method resolver for `namespace:function`
 * names, the memoised file list with its watch-driven invalidation, the list of
 * connected channels, and the framing of the websocket traffic. birpc itself, the
 * websocket transport and the file system are parameters here.
 */
module DevtoolsRpc {
  import opened Wrappers
  import opened Text
  import opened Paths

  const WS_EVENT_NAME := "nuxt-svg-loader:devtools:rpc"

  // ---------------------------------------------------------------------------
  // Method resolution
  // ---------------------------------------------------------------------------

  /**
   * birpc's `resolver(name, fn)`: a registered function wins; otherwise a name with a
   * `:` is looked up as `extended[namespace][function]`, where the two are the first two
   * pieces of `name.split(':')`.
   */
  function ResolveMethod<F>(name: string, fn: Option<F>, extended: map<string, map<string, F>>): (r: Option<F>)
    ensures fn.Some? ==> r == fn
    ensures fn.None? && ':' !in name ==> r == None
  {
    if fn.Some? then fn
    else if ':' !in name then None
    else
      var parts := Split(name, ':');
      var namespace, fnName := parts[0], parts[1];
      if namespace in extended && fnName in extended[namespace] then
        Some(extended[namespace][fnName])
      else None
  }

  /** `ns:f` resolves to the entry `f` of namespace `ns`, whatever follows a further `:`. */
  lemma ResolveNamespaced<F>(ns: string, f: string, tail: string, extended: map<string, map<string, F>>)
    requires ':' !in ns && ':' !in f
    requires tail == "" || tail[0] == ':'
    ensures ResolveMethod(ns + ":" + f + tail, None, extended)
         == if ns in extended && f in extended[ns] then Some(extended[ns][f]) else None
  {
    var name := ns + ":" + f + tail;
    assert name == ns + [':'] + (f + tail);
    SplitAfterFirst(ns, ':', f + tail);
    SplitHead(f, ':', tail);
    assert ':' in name by { assert name[|ns|] == ':'; }
  }

  /** `a:b:c` resolves like `a:b`: everything after the second `:` is ignored. */
  lemma ResolveIgnoresTail<F>(a: string, b: string, c: string, extended: map<string, map<string, F>>)
    requires ':' !in a && ':' !in b
    ensures ResolveMethod(a + ":" + b + ":" + c, None, extended) == ResolveMethod(a + ":" + b, None, extended)
  {
    ResolveNamespaced(a, b, ":" + c, extended);
    ResolveNamespaced(a, b, "", extended);
    assert a + ":" + b + ":" + c == a + ":" + b + (":" + c);
    assert a + ":" + b + "" == a + ":" + b;
  }

  /** `setupRPC` never adds to its extension map, so only registered functions resolve. */
  lemma NothingExtended<F>(name: string, fn: Option<F>)
    ensures ResolveMethod(name, fn, map[]) == fn
  {
  }

  // ---------------------------------------------------------------------------
  // Websocket frames
  // ---------------------------------------------------------------------------

  /** A parsed JSON value (numbers are integers here). */
  datatype Json = JNull | JBool(b: bool) | JNum(n: int) | JStr(s: string) | JArr(items: seq<Json>) | JObj(fields: map<string, Json>)

  /** JavaScript truthiness of a parsed value. */
  predicate Truthy(j: Json) {
    match j
    case JNull => false
    case JBool(b) => b
    case JNum(n) => n != 0
    case JStr(s) => s != ""
    case _ => true
  }

  /** Property access `value[key]`: only an object has own properties here. */
  function Get(value: Json, key: string): Option<Json> {
    if value.JObj? && key in value.fields then Some(value.fields[key]) else None
  }

  /** What `post(d)` sends: `{ type: 'custom', event: WS_EVENT_NAME, data: d }`. */
  function Frame(d: Json): Json {
    JObj(map["type" := JStr("custom"), "event" := JStr(WS_EVENT_NAME), "data" := d])
  }

  /** Whether the handler of `on(fn)` is called, and with what (None: `undefined`). */
  datatype Delivery = Dropped | Delivered(payload: Option<Json>)

  /**
   * The `message` listener of `on(fn)`. `parsed` is `JSON.parse(String(e))`, None where it
   * throws; a falsy value is replaced by `{}`.
   */
  function Inbound(parsed: Option<Json>): (r: Delivery)
    ensures r.Delivered? <==> parsed.Some? && Get(parsed.value, "type") == Some(JStr("custom"))
                                           && Get(parsed.value, "event") == Some(JStr(WS_EVENT_NAME))
    ensures r.Delivered? ==> r.payload == Get(parsed.value, "data")
  {
    match parsed
    case None => Dropped
    case Some(value) =>
      var data := if Truthy(value) then value else JObj(map[]);
      if Get(data, "type") == Some(JStr("custom")) && Get(data, "event") == Some(JStr(WS_EVENT_NAME))
      then Delivered(Get(data, "data"))
      else Dropped
  }

  /** Every frame this side posts reaches the peer's handler with its payload unchanged. */
  lemma FrameRoundTrip(d: Json)
    ensures Inbound(Some(Frame(d))) == Delivered(Some(d))
  {
    assert Get(Frame(d), "type") == Some(JStr("custom"));
    assert Get(Frame(d), "event") == Some(JStr(WS_EVENT_NAME));
  }

  // ---------------------------------------------------------------------------
  // The file list
  // ---------------------------------------------------------------------------

  /** `SvgFilesInfo`. */
  datatype SvgFilesInfo = SvgFilesInfo(path: string, filePath: string, name: string, size: nat, mtime: int)

  /** What `fsp.lstat` reports (modification time in whole milliseconds). */
  datatype Stat = Stat(size: nat, mtimeMs: int)

  /** The record of one globbed path, given where it resolves to and its stat. */
  function Info(path: string, filePath: string, stat: Stat): (r: SvgFilesInfo)
    ensures r.path == path && r.filePath == filePath
    ensures r.name == LastSegment(path) && NoSlash(r.name)
    ensures r.size == stat.size && r.mtime == stat.mtimeMs
  {
    SvgFilesInfo(path, filePath, Basename(path, ""), stat.size, stat.mtimeMs)
  }

  /**
   * `Promise.all(files.map(...))`: one record per path, in glob order, or None (a
   * rejection) when any `lstat` fails.
   */
  function Infos(files: seq<string>, resolve: string -> string, stat: string -> Option<Stat>): Option<seq<SvgFilesInfo>> {
    if forall i :: 0 <= i < |files| ==> stat(resolve(files[i])).Some? then
      Some(seq(|files|, i requires 0 <= i < |files| && stat(resolve(files[i])).Some? =>
        Info(files[i], resolve(files[i]), stat(resolve(files[i])).value)))
    else None
  }

  /**
   * A scan that succeeds lists every globbed path once, in order, named after its last
   * segment; it fails exactly when some file cannot be stat-ed.
   */
  lemma ScanListsFiles(files: seq<string>, resolve: string -> string, stat: string -> Option<Stat>)
    ensures Infos(files, resolve, stat).None? <==> exists i :: 0 <= i < |files| && stat(resolve(files[i])).None?
    ensures Infos(files, resolve, stat).Some? ==>
              var r := Infos(files, resolve, stat).value;
              && |r| == |files|
              && forall i :: 0 <= i < |r| ==>
                   (r[i].path == files[i] && r[i].filePath == resolve(files[i])
                    && r[i].name == LastSegment(files[i]) && NoSlash(r[i].name))
  {
  }

  /** A frame posted on a channel. */
  datatype Sent = Sent(channel: nat, frame: Json)

  /** The broadcast of one payload: a frame on every channel, in channel order. */
  function Broadcast(channels: seq<nat>, payload: Json): (r: seq<Sent>)
    ensures |r| == |channels|
    ensures forall i :: 0 <= i < |r| ==> r[i] == Sent(channels[i], Frame(payload))
  {
    seq(|channels|, i requires 0 <= i < |channels| => Sent(channels[i], Frame(payload)))
  }

  /**
   * On a channel list without repeats, each listed channel receives the payload's frame
   * exactly once, and no other frame and no other channel is sent anything.
   */
  lemma {:induction false} BroadcastOnce(channels: seq<nat>, payload: Json, c: nat, f: Json)
    requires Distinct(channels)
    ensures multiset(Broadcast(channels, payload))[Sent(c, f)] == if c in channels && f == Frame(payload) then 1 else 0
    decreases |channels|
  {
    if channels != [] {
      DistinctTail(channels);
      BroadcastOnce(channels[1..], payload, c, f);
      BroadcastCons(channels, payload);
      var head, rest := Sent(channels[0], Frame(payload)), Broadcast(channels[1..], payload);
      assert multiset([head] + rest) == multiset([head]) + multiset(rest);
      assert c in channels <==> c == channels[0] || c in channels[1..];
    }
  }

  /** A broadcast posts on the first channel, then on the rest. */
  lemma BroadcastCons(channels: seq<nat>, payload: Json)
    requires channels != []
    ensures Broadcast(channels, payload) == [Sent(channels[0], Frame(payload))] + Broadcast(channels[1..], payload)
  {
  }

  // ---------------------------------------------------------------------------
  // The channel list
  // ---------------------------------------------------------------------------

  predicate Distinct(cs: seq<nat>) {
    forall j, k :: 0 <= j < k < |cs| ==> cs[j] != cs[k]
  }

  /** `c.indexOf(channel)`: the first position of `c`, or -1. */
  function IndexOf(cs: seq<nat>, c: nat): (i: int)
    ensures -1 <= i < |cs|
    ensures i >= 0 ==> cs[i] == c && c !in cs[..i]
    ensures i == -1 ==> c !in cs
  {
    if cs == [] then -1
    else if cs[0] == c then 0
    else
      var i := IndexOf(cs[1..], c);
      if i == -1 then -1
      else
        assert cs[..i + 1] == [cs[0]] + cs[1..][..i];
        i + 1
  }

  /** The list without channel `c`, every other channel kept in order. */
  function Without(cs: seq<nat>, c: nat): (r: seq<nat>)
    ensures forall x :: x in r <==> x in cs && x != c
    ensures |r| <= |cs|
  {
    if cs == [] then []
    else (if cs[0] == c then [] else [cs[0]]) + Without(cs[1..], c)
  }

  /** Splicing out the first occurrence of a channel that occurs once removes it. */
  lemma {:induction false} SpliceIsWithout(cs: seq<nat>, c: nat)
    requires Distinct(cs)
    ensures IndexOf(cs, c) >= 0 ==> cs[..IndexOf(cs, c)] + cs[IndexOf(cs, c) + 1..] == Without(cs, c)
    ensures IndexOf(cs, c) == -1 ==> cs == Without(cs, c)
    decreases |cs|
  {
    if cs != [] {
      var tail := cs[1..];
      DistinctTail(cs);
      SpliceIsWithout(tail, c);
      if cs[0] == c {
        WithoutAbsent(tail, c);
        assert Without(cs, c) == [] + Without(tail, c);
      } else {
        assert Without(cs, c) == [cs[0]] + Without(tail, c);
        var i' := IndexOf(tail, c);
        if i' >= 0 {
          SpliceStep(cs, i' + 1);
        } else {
          assert [cs[0]] + tail == cs;
        }
      }
    }
  }

  /** The tail of a list without repeats has none, and lacks the head. */
  lemma DistinctTail(cs: seq<nat>)
    requires cs != [] && Distinct(cs)
    ensures Distinct(cs[1..]) && cs[0] !in cs[1..]
  {
    var tail := cs[1..];
    forall j, k | 0 <= j < k < |tail| ensures tail[j] != tail[k] {
      assert tail[j] == cs[j + 1] && tail[k] == cs[k + 1];
    }
    forall k | 0 <= k < |tail| ensures tail[k] != cs[0] {
      assert tail[k] == cs[k + 1];
    }
  }

  /** Splicing out index `i > 0` keeps the head and splices the tail at `i - 1`. */
  lemma SpliceStep(cs: seq<nat>, i: nat)
    requires 0 < i < |cs|
    ensures cs[..i] + cs[i + 1..] == [cs[0]] + (cs[1..][..i - 1] + cs[1..][i..])
  {
    assert cs[..i] == [cs[0]] + cs[1..][..i - 1];
    assert cs[i + 1..] == cs[1..][i..];
  }

  /** Removing an absent channel changes nothing. */
  lemma {:induction false} WithoutAbsent(cs: seq<nat>, c: nat)
    requires c !in cs
    ensures Without(cs, c) == cs
    decreases |cs|
  {
    if cs != [] {
      WithoutAbsent(cs[1..], c);
      assert [cs[0]] + cs[1..] == cs;
    }
  }

  /** Closing the connection just made restores the channel list. */
  lemma {:induction false} CloseUndoesConnect(cs: seq<nat>, c: nat)
    requires c !in cs
    ensures Without(cs + [c], c) == cs
    decreases |cs|
  {
    if cs == [] {
      assert Without([c], c) == [] + Without([], c);
    } else {
      assert (cs + [c])[1..] == cs[1..] + [c];
      CloseUndoesConnect(cs[1..], c);
      assert [cs[0]] + cs[1..] == cs;
    }
  }

  // ---------------------------------------------------------------------------
  // The server state
  // ---------------------------------------------------------------------------

  class RpcServer {
    /** The memoised scan result; None is `null`. */
    var cache: Option<seq<SvgFilesInfo>>
    /** A call of `refreshDebounced` is waiting for its timer. */
    var refreshPending: bool
    /** The channel ids of the birpc group, in connection order. */
    var channels: seq<nat>
    /** The open websocket connections. */
    var wsClients: set<nat>
    /** The id the next connection's channel gets. */
    var nextChannel: nat
    /** Every frame sent so far. */
    var sent: seq<Sent>

    /** Channels are distinct and were all handed out. */
    ghost predicate Valid()
      reads this
    {
      Distinct(channels) && forall c :: c in channels ==> c < nextChannel
    }

    constructor ()
      ensures Valid()
      ensures cache == None && !refreshPending && channels == [] && wsClients == {} && sent == []
    {
      cache := None;
      refreshPending := false;
      channels := [];
      wsClients := {};
      nextChannel := 0;
      sent := [];
    }

    /** `getStaticSvgFiles()` / `scan()`: the cached list if there is one, else a fresh scan that is cached. */
    method Scan(files: seq<string>, resolve: string -> string, stat: string -> Option<Stat>)
      returns (r: Option<seq<SvgFilesInfo>>)
      modifies this
      ensures old(cache).Some? ==> r == old(cache) && cache == old(cache)
      ensures old(cache).None? ==> r == Infos(files, resolve, stat) && cache == r
      ensures refreshPending == old(refreshPending) && channels == old(channels)
      ensures wsClients == old(wsClients) && nextChannel == old(nextChannel) && sent == old(sent)
    {
      if cache.Some? {
        return cache;
      }
      r := Infos(files, resolve, stat);
      cache := r;
    }

    /** The `builder:watch` hook: only `add` and `unlink` call `refreshDebounced`. */
    method OnWatch(event: string)
      modifies this
      ensures refreshPending == (old(refreshPending) || event == "add" || event == "unlink")
      ensures cache == old(cache) && channels == old(channels)
      ensures wsClients == old(wsClients) && nextChannel == old(nextChannel) && sent == old(sent)
    {
      if event == "add" || event == "unlink" {
        refreshPending := true;
      }
    }

    /** `post(d)` on channel `ch`: the payload goes out wrapped in a frame. */
    method Post(ch: nat, d: Json)
      modifies this
      ensures sent == old(sent) + [Sent(ch, Frame(d))]
      ensures cache == old(cache) && refreshPending == old(refreshPending) && channels == old(channels)
      ensures wsClients == old(wsClients) && nextChannel == old(nextChannel)
    {
      sent := sent + [Sent(ch, Frame(d))];
    }

    /**
     * The debounce timer elapses: a pending refresh drops the cache and broadcasts the
     * `refresh('getStaticSvgFiles')` event, which birpc encodes as `payload`.
     */
    method FireRefresh(payload: Json)
      requires Valid()
      modifies this
      ensures Valid() && !refreshPending
      ensures old(refreshPending) ==> cache == None && sent == old(sent) + Broadcast(channels, payload)
      ensures !old(refreshPending) ==> cache == old(cache) && sent == old(sent)
      ensures channels == old(channels) && wsClients == old(wsClients) && nextChannel == old(nextChannel)
    {
      if !refreshPending {
        return;
      }
      cache := None;
      refreshPending := false;
      var i := 0;
      while i < |channels|
        invariant 0 <= i <= |channels|
        invariant cache == None && !refreshPending
        invariant channels == old(channels) && wsClients == old(wsClients) && nextChannel == old(nextChannel)
        invariant sent == old(sent) + Broadcast(channels[..i], payload)
      {
        Post(channels[i], payload);
        assert Broadcast(channels[..i + 1], payload) == Broadcast(channels[..i], payload) + [Sent(channels[i], Frame(payload))];
        i := i + 1;
      }
      assert channels[..i] == channels;
    }

    /** A websocket connects: its client is recorded and a new channel joins the group. */
    method Connect(ws: nat) returns (ch: nat)
      requires Valid()
      modifies this
      ensures Valid()
      ensures ch !in old(channels) && channels == old(channels) + [ch]
      ensures wsClients == old(wsClients) + {ws}
      ensures cache == old(cache) && refreshPending == old(refreshPending) && sent == old(sent)
    {
      wsClients := wsClients + {ws};
      ch := nextChannel;
      assert ch !in channels;
      nextChannel := nextChannel + 1;
      channels := channels + [ch];
      assert forall j :: 0 <= j < |channels| - 1 ==> channels[j] == old(channels)[j];
    }

    /** The websocket of channel `ch` closes: its client goes, and its channel if still listed. */
    method Close(ws: nat, ch: nat)
      requires Valid()
      modifies this
      ensures Valid()
      ensures channels == Without(old(channels), ch)
      ensures wsClients == old(wsClients) - {ws}
      ensures cache == old(cache) && refreshPending == old(refreshPending) && sent == old(sent)
      ensures nextChannel == old(nextChannel)
    {
      wsClients := wsClients - {ws};
      SpliceIsWithout(channels, ch);
      WithoutDistinct(channels, ch);
      var index := IndexOf(channels, ch);
      if index >= 0 {
        channels := channels[..index] + channels[index + 1..];
      }
    }
  }

  /** Removing a channel keeps the list free of repetitions. */
  lemma {:induction false} WithoutDistinct(cs: seq<nat>, c: nat)
    requires Distinct(cs)
    ensures Distinct(Without(cs, c))
    decreases |cs|
  {
    if cs != [] {
      WithoutDistinct(cs[1..], c);
      var rest := Without(cs[1..], c);
      assert cs[0] !in cs[1..];
      assert cs[0] !in rest;
    }
  }
}
