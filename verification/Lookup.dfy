/** Which package a name resolves to: internalLookup of apkgdb/lookup.go. */
module Lookup {
  import opened Bytes
  import opened Collate
  import opened Natsort
  import opened VersionOrder
  import opened Buckets
  import opened Records
  import opened Pins

  const TOP: byte := 0xff

  /** The stored package an index value stands for starts with `name` and a dot. */
  predicate Matches(e: Entry, name: Bytes)
    requires IsP2pValue(e.value)
  {
    name + [DOT] <= P2pName(e.value)
  }

  /** Seek just past everything that starts with the key, step back, check the name. */
  function PrefixSearch(p2p: Bucket, name: Bytes): Option<Bytes>
    requires Indexed(p2p)
  {
    match SeekPrev(p2p, Collated(name) + [TOP])
    case None => None
    case Some(e) => SeekPrevGreatest(p2p, Collated(name) + [TOP], e); if Matches(e, name) then Some(e.value) else None
  }

  /** A stored key continues the key of `name` with a byte above the dot that
      the seek does not step over. */
  ghost predicate Hidden(p2p: Bucket, name: Bytes) {
    exists e, x: byte :: e in p2p && DOT < x < 0xff && Collated(name) + [x] <= e.key
  }

  lemma MatchKey(p2p: Bucket, e: Entry, name: Bytes)
    requires Indexed(p2p) && e in p2p
    ensures Matches(e, name) <==> Collated(name) + [DOT] <= e.key
    ensures Matches(e, name) ==> LexLess(e.key, Collated(name) + [TOP])
  {
    DotPrefixReflected(name, P2pName(e.value));
    if Matches(e, name) {
      ExtensionBelow(Collated(name), DOT, TOP, e.key);
    }
  }

  lemma ExtensionBelow(c: Bytes, x: byte, y: byte, k: Bytes)
    requires c + [x] <= k && x < y
    ensures LexLess(k, c + [y])
  {
    var t := k[|c|..];
    assert k == c + t && t[0] == x;
    LexPrefix(c, t, [y]);
  }

  /** A search that succeeds returns a stored package whose name continues
      `name` with a dot, and no such package has a greater key. */
  lemma SearchMaximal(p2p: Bucket, name: Bytes, v: Bytes)
    requires Indexed(p2p) && PrefixSearch(p2p, name) == Some(v)
    ensures exists e :: e in p2p && e.value == v && Matches(e, name)
                        && forall f | f in p2p && Matches(f, name) :: f == e || LexLess(f.key, e.key)
  {
    var k := Collated(name) + [TOP];
    var e := SeekPrev(p2p, k).value;
    SeekPrevGreatest(p2p, k, e);
    forall f | f in p2p && Matches(f, name)
      ensures f == e || LexLess(f.key, e.key)
    {
      MatchKey(p2p, f, name);
    }
  }

  /** The search succeeds exactly when some package matches and no stored key hides it. */
  lemma SearchComplete(p2p: Bucket, name: Bytes)
    requires Indexed(p2p)
    ensures PrefixSearch(p2p, name).Some? <==>
              (exists e :: e in p2p && Matches(e, name)) && !Hidden(p2p, name)
  {
    if PrefixSearch(p2p, name).Some? {
      var v := PrefixSearch(p2p, name).value;
      SearchMaximal(p2p, name, v);
      if Hidden(p2p, name) {
        HiddenFails(p2p, name);
      }
    } else if exists e :: e in p2p && Matches(e, name) {
      var e :| e in p2p && Matches(e, name);
      FailureHidden(p2p, name, e);
    }
  }

  /** A stored name that goes on with a byte above the dot hides every package of
      the shorter name (libpng16 next to libpng, foo1a next to foo1), unless a
      number goes on (foo12 next to foo1). */
  lemma NeighbourHides(p2p: Bucket, name: Bytes, f: Entry, t: Bytes)
    requires Indexed(p2p) && f in p2p && P2pName(f.value) == name + t
    requires t != [] && DOT < t[0] < 0xff && !(EndsWithDigit(name) && IsDigit(t[0]))
    ensures Hidden(p2p, name)
  {
    hide Collated;
    JoinKey(name, t);
    var x: byte := Collated(t)[0];
    assert f.key == Collated(name) + Collated(t);
    assert Collated(name) + [x] <= f.key;
  }

  lemma JoinKey(name: Bytes, t: Bytes)
    requires t != [] && !(EndsWithDigit(name) && IsDigit(t[0]))
    ensures Collated(name + t) == Collated(name) + Collated(t) && Collated(t) != []
    ensures Collated(t)[0] == if IsDigit(t[0]) then 0x7f + Step(t) else t[0]
  {
    hide Collated;
    if IsDigit(t[0]) {
      CollatedJoin(name, t);
    } else {
      CollatedAppend(name, t);
    }
    FirstKeyByte(t);
  }

  /** Said of the stored names: for a name that ends with neither a digit nor a
      byte that could be a length byte, these are the only packages that hide it. */
  lemma HiddenByName(p2p: Bucket, name: Bytes)
    requires Indexed(p2p) && (name != [] ==> !IsDigit(name[|name| - 1]) && !LengthByte(name[|name| - 1]))
    ensures Hidden(p2p, name) <==>
              exists f, t: Bytes :: f in p2p && P2pName(f.value) == name + t && t != [] && DOT < t[0] < 0xff
  {
    hide Collated, Hidden;
    if Hidden(p2p, name) {
      var f := Hider(p2p, name);
      KeyPrefixReflected(name, P2pName(f.value));
      var t := P2pName(f.value)[|name|..];
      assert P2pName(f.value) == name + t;
      HiderGoesOn(p2p, name, f, t);
    }
    if exists f, t: Bytes :: f in p2p && P2pName(f.value) == name + t && t != [] && DOT < t[0] < 0xff {
      var f, t: Bytes :| f in p2p && P2pName(f.value) == name + t && t != [] && DOT < t[0] < 0xff;
      NeighbourHides(p2p, name, f, t);
    }
  }

  ghost predicate Hides(f: Entry, name: Bytes) {
    exists x: byte :: DOT < x < 0xff && Collated(name) + [x] <= f.key
  }

  lemma Hider(p2p: Bucket, name: Bytes) returns (f: Entry)
    requires Indexed(p2p) && Hidden(p2p, name)
    ensures f in p2p && Hides(f, name) && Collated(name) <= Collated(P2pName(f.value))
  {
    hide Collated;
    var g, x: byte :| g in p2p && DOT < x < 0xff && Collated(name) + [x] <= g.key;
    f := g;
  }

  lemma HiderGoesOn(p2p: Bucket, name: Bytes, f: Entry, t: Bytes)
    requires Indexed(p2p) && f in p2p && Hides(f, name) && P2pName(f.value) == name + t && !EndsWithDigit(name)
    ensures t != [] && DOT < t[0] < 0xff
  {
    hide Collated;
    var x: byte :| DOT < x < 0xff && Collated(name) + [x] <= f.key;
    assert name + [] == name;
    if t != [] {
      JoinKey(name, t);
      assert f.key[|Collated(name)|] == x == Collated(t)[0];
    }
  }

  /** An index of two packages, name.version and a neighbour as above. */
  lemma Neighbours(name: Bytes, version: Bytes, t: Bytes, u: Bytes, v: Bytes) returns (p2p: Bucket)
    requires t != [] && DOT < t[0] < 0xff && !(EndsWithDigit(name) && IsDigit(t[0])) && |u| == |v| == 40
    ensures Indexed(p2p) && |p2p| == 2
    ensures P2pName(p2p[0].value) == name + [DOT] + version && P2pName(p2p[1].value) == name + t
    ensures Matches(p2p[0], name) && Hidden(p2p, name) && PrefixSearch(p2p, name) == None
  {
    hide Collated, PrefixSearch, Hidden;
    var m, n := name + [DOT] + version, name + t;
    var e, f := Entry(Collated(m), u + m), Entry(Collated(n), v + n);
    CollatedDot(name, version);
    JoinKey(name, t);
    KeysApart(Collated(name), Collated(version), Collated(t));
    var raw := [e, f];
    assert Sorted(raw);
    p2p := raw;
    assert P2pName(e.value) == m && P2pName(f.value) == n;
    assert f in p2p;
    NeighbourHides(p2p, name, f, t);
    SearchComplete(p2p, name);
  }

  lemma KeysApart(c: Bytes, k: Bytes, l: Bytes)
    requires l != [] && DOT < l[0]
    ensures LexLess(c + [DOT] + k, c + l)
  {
    Assoc(c, [DOT], k);
    LexPrefix(c, [DOT] + k, l);
  }

  lemma HiddenFails(p2p: Bucket, name: Bytes)
    requires Indexed(p2p) && Hidden(p2p, name)
    ensures PrefixSearch(p2p, name).None?
  {
    var c := Collated(name);
    var f, x: byte :| f in p2p && DOT < x < 0xff && c + [x] <= f.key;
    ExtensionBelow(c, x, TOP, f.key);
    if SeekPrev(p2p, c + [TOP]).Some? {
      var e := SeekPrev(p2p, c + [TOP]).value;
      SeekPrevGreatest(p2p, c + [TOP], e);
      MatchKey(p2p, e, name);
      if Matches(e, name) {
        ExtensionsOrdered(c, DOT, x, e.key, f.key);
        LexTotal(e.key, f.key);
      }
    } else {
      SeekPrevGreatest(p2p, c + [TOP], f);
    }
  }

  lemma ExtensionsOrdered(c: Bytes, x: byte, y: byte, k: Bytes, l: Bytes)
    requires c + [x] <= k && c + [y] <= l && x < y
    ensures LexLess(k, l)
  {
    var t, u := k[|c|..], l[|c|..];
    assert k == c + t && l == c + u && t[0] == x && u[0] == y;
    LexPrefix(c, t, u);
  }

  lemma FailureHidden(p2p: Bucket, name: Bytes, m: Entry)
    requires Indexed(p2p) && PrefixSearch(p2p, name).None? && m in p2p && Matches(m, name)
    ensures Hidden(p2p, name)
  {
    var c := Collated(name);
    MatchKey(p2p, m, name);
    SeekPrevGreatest(p2p, c + [TOP], m);
    var e := SeekPrev(p2p, c + [TOP]).value;
    SeekPrevGreatest(p2p, c + [TOP], e);
    MatchKey(p2p, e, name);
    var x := NextByte(c, m.key, e.key);
    assert e in p2p && DOT < x < 0xff && c + [x] <= e.key;
  }

  /** A key between a match and the seek target continues the searched key. */
  lemma NextByte(c: Bytes, m: Bytes, k: Bytes) returns (x: byte)
    requires c + [DOT] <= m && LexLess(m, k) && LexLess(k, c + [TOP])
    requires !(c + [DOT] <= k)
    ensures DOT < x < 0xff && c + [x] <= k
  {
    LexTotal(m, k);
    var t := m[|c|..];
    assert m == c + t && t[0] == DOT;
    LexBetween(c, t, k, [TOP]);
    var u := k[|c|..];
    assert k == c + u;
    LexPrefix(c, t, u);
    LexPrefix(c, u, [TOP]);
    assert u != [];
    x := u[0];
    assert c + [x] <= k;
  }

  /** The package found is later in natural order than another matching one
      exactly when the two orders agree on the two names. */
  lemma SearchLatest(p2p: Bucket, name: Bytes, v: Bytes)
    requires Indexed(p2p) && PrefixSearch(p2p, name) == Some(v)
    ensures IsP2pValue(v)
    ensures forall f | f in p2p && Matches(f, name) && P2pName(f.value) != P2pName(v) ::
              NatLess(P2pName(f.value), P2pName(v)) <==> OrdersAgree(P2pName(f.value), P2pName(v))
  {
    hide OrdersAgree, NatLess;
    SearchMaximal(p2p, name, v);
    var e :| e in p2p && e.value == v && Matches(e, name)
             && forall f | f in p2p && Matches(f, name) :: f == e || LexLess(f.key, e.key);
    forall f | f in p2p && Matches(f, name) && P2pName(f.value) != P2pName(v)
      ensures NatLess(P2pName(f.value), P2pName(v)) <==> OrdersAgree(P2pName(f.value), P2pName(v))
    {
      assert KeyLess(P2pName(f.value), P2pName(v));
      OrdersAgreeExactly(P2pName(f.value), P2pName(v));
    }
  }

  /** So where names are clean and numbers short, it is the latest of all that match. */
  lemma SearchLatestClean(p2p: Bucket, name: Bytes, v: Bytes)
    requires Indexed(p2p) && PrefixSearch(p2p, name) == Some(v)
    requires forall e | e in p2p && Matches(e, name) :: Clean(P2pName(e.value)) && ShortNumbers(P2pName(e.value))
    ensures IsP2pValue(v)
    ensures forall f | f in p2p && Matches(f, name) && P2pName(f.value) != P2pName(v) ::
              NatLess(P2pName(f.value), P2pName(v))
  {
    hide OrdersAgree, NatLess;
    SearchLatest(p2p, name, v);
    SearchMaximal(p2p, name, v);
    forall f | f in p2p && Matches(f, name) && P2pName(f.value) != P2pName(v)
      ensures OrdersAgree(P2pName(f.value), P2pName(v))
    {
      ShortNumbersAgree(P2pName(f.value), P2pName(v));
      CleanAgree(P2pName(f.value), P2pName(v));
    }
  }

  /** An exact match can only be the package of that very name. */
  lemma ExactIsNamed(p2p: Bucket, name: Bytes, v: Bytes)
    requires Indexed(p2p)
    ensures Get(p2p, Collated(name)) == Some(v) <==>
              exists e :: e in p2p && e.value == v && P2pName(e.value) == name
  {
    GetStored(p2p, Collated(name), v);
    if Get(p2p, Collated(name)) == Some(v) {
      var e := Entry(Collated(name), v);
      assert e in p2p;
      CollatedInjective(P2pName(v), name);
    }
    if exists e :: e in p2p && e.value == v && P2pName(e.value) == name {
      var e :| e in p2p && e.value == v && P2pName(e.value) == name;
      assert e == Entry(Collated(name), v);
    }
  }

  // ----- internalLookup

  /** What a name resolves to: nothing, a package by its full name (the inode
      behind the symlink), or the latest match (the symlink). */
  datatype Found = NotFound | Exact(value: Bytes) | Latest(value: Bytes)

  function Resolve(p2p: Bucket, pins: Bucket, channel: Bytes, name: Bytes): Found
    requires Indexed(p2p)
  {
    if DOT !in name then NotFound
    else if Get(p2p, Collated(name)).Some? then Exact(Get(p2p, Collated(name)).value)
    else
      var pin := LookupPin(pins, channel, name);
      var pinned := PrefixSearch(p2p, name + [DOT] + pin);
      if pin != [] && pinned.Some? then Latest(pinned.value)
      else
        var r := PrefixSearch(p2p, name);
        if r.Some? then Latest(r.value) else NotFound
  }

  /** One cursor: Seek to the key and 0xff, Prev, and the name check. */
  method Search(p2p: Bucket, name: Bytes) returns (r: Option<Bytes>)
    requires Indexed(p2p)
    ensures r == PrefixSearch(p2p, name)
  {
    hide Collated, Rank, Sorted;
    var key := CollatedVersion(name);
    var i := Rank(p2p, key + [TOP]);
    if i == 0 {
      return None;
    }
    var e := p2p[i - 1];
    assert e in p2p;
    var stored := e.value[32 + 8..];
    if |name| + 1 <= |stored| && stored[..|name| + 1] == name + [DOT] {
      return Some(e.value);
    }
    return None;
  }

  /** The search part of internalLookup. */
  method InternalLookup(p2p: Bucket, pins: PinTable, name: Bytes) returns (r: Found)
    requires Indexed(p2p)
    ensures r == Resolve(p2p, pins.pins, pins.channel, name)
  {
    if DOT !in name {
      return NotFound;
    }
    var key := CollatedVersion(name);
    var v := Get(p2p, key);
    if v.Some? {
      return Exact(v.value);
    }
    var pin := pins.LookupPinTx(name);
    if pin != [] {
      var pinned := Search(p2p, name + [DOT] + pin);
      if pinned.Some? {
        return Latest(pinned.value);
      }
    }
    var latest := Search(p2p, name);
    r := if latest.Some? then Latest(latest.value) else NotFound;
  }

  /** Everything a lookup returns is stored, and belongs to the name: it is the
      package of that name, or one whose name continues it with a dot. */
  lemma ResolveSound(p2p: Bucket, pins: Bucket, channel: Bytes, name: Bytes)
    requires Indexed(p2p)
    ensures match Resolve(p2p, pins, channel, name)
            case NotFound => true
            case Exact(v) => exists e :: e in p2p && e.value == v && P2pName(v) == name
            case Latest(v) => exists e :: e in p2p && e.value == v && Matches(e, name)
  {
    match Resolve(p2p, pins, channel, name)
    case NotFound =>
    case Exact(v) => ExactIsNamed(p2p, name, v);
    case Latest(v) =>
      var pin := LookupPin(pins, channel, name);
      if pin != [] && PrefixSearch(p2p, name + [DOT] + pin).Some? {
        SearchMaximal(p2p, name + [DOT] + pin, v);
        var e :| e in p2p && e.value == v && Matches(e, name + [DOT] + pin);
        assert name + [DOT] <= name + [DOT] + pin + [DOT] <= P2pName(v);
      } else {
        SearchMaximal(p2p, name, v);
      }
  }

  /** A pin never changes the answer for a package stored under its exact name. */
  lemma PinKeepsExact(p2p: Bucket, pins: Bucket, channel: Bytes, name: Bytes, e: Entry)
    requires Indexed(p2p) && e in p2p && P2pName(e.value) == name && DOT in name
    ensures Resolve(p2p, pins, channel, name) == Exact(e.value)
  {
    ExactIsNamed(p2p, name, e.value);
  }

  /** The greatest stored package whose name continues `name` with a dot. */
  ghost predicate IsLatest(p2p: Bucket, name: Bytes, v: Bytes)
    requires Indexed(p2p)
  {
    exists e :: e in p2p && e.value == v && Matches(e, name)
                && forall f | f in p2p && Matches(f, name) :: f == e || LexLess(f.key, e.key)
  }

  /** The search for a name reaches some package: one matches, and nothing hides it. */
  ghost predicate Reachable(p2p: Bucket, name: Bytes)
    requires Indexed(p2p)
  {
    (exists e :: e in p2p && Matches(e, name)) && !Hidden(p2p, name)
  }

  lemma SearchExact(p2p: Bucket, name: Bytes)
    requires Indexed(p2p)
    ensures PrefixSearch(p2p, name).Some? <==> Reachable(p2p, name)
    ensures PrefixSearch(p2p, name).Some? ==> IsLatest(p2p, name, PrefixSearch(p2p, name).value)
  {
    hide PrefixSearch, Hidden, Matches;
    SearchComplete(p2p, name);
    if PrefixSearch(p2p, name).Some? {
      SearchMaximal(p2p, name, PrefixSearch(p2p, name).value);
    }
  }

  /** What a lookup of a name that is not stored gives, said of the stored
      packages and pins alone. If the channel is neither empty nor "latest" and
      has a pin of this very name that is not empty, it is the greatest package
      that continues the name and the pinned version, if one is stored and
      nothing hides it, whatever newer versions there are. Otherwise it is the
      greatest package that continues the name, if one is stored and nothing
      hides it, and else nothing. */
  lemma PinnedLookup(p2p: Bucket, pins: Bucket, channel: Bytes, name: Bytes)
    requires Indexed(p2p) && forall e | e in p2p :: P2pName(e.value) != name
    ensures var pin := Get(pins, channel + [0] + name);
            var applies := channel != [] && channel != [108, 97, 116, 101, 115, 116] && pin.Some? && pin.value != [];
            var r := Resolve(p2p, pins, channel, name);
            if DOT !in name then r.NotFound?
            else if applies && Reachable(p2p, name + [DOT] + pin.value)
            then r.Latest? && IsLatest(p2p, name + [DOT] + pin.value, r.value)
            else if Reachable(p2p, name) then r.Latest? && IsLatest(p2p, name, r.value)
            else r.NotFound?
  {
    hide PrefixSearch, Reachable, IsLatest, Get, Collated;
    NotStored(p2p, name);
    assert PinKey(channel, name) == channel + [0] + name;
    SearchExact(p2p, name + [DOT] + LookupPin(pins, channel, name));
    SearchExact(p2p, name);
  }

  /** So a pin that was set, and not changed since, takes effect, for every pin
      without NUL: after any history of changes that leaves it at a version. */
  lemma PinTakesEffect(p2p: Bucket, changes: seq<Change>, channel: Bytes, name: Bytes, version: Bytes)
    requires Indexed(p2p) && DOT in name && forall e | e in p2p :: P2pName(e.value) != name
    requires NUL !in channel && NUL !in name && channel != [] && channel != [108, 97, 116, 101, 115, 116]
    requires Last(changes, channel, name) == Some(version) && version != []
    requires Reachable(p2p, name + [DOT] + version)
    ensures var r := Resolve(p2p, History(changes), channel, name);
            r.Latest? && IsLatest(p2p, name + [DOT] + version, r.value)
  {
    hide Resolve, Reachable, IsLatest, Get, History, Last;
    SafeAsLeft(changes, channel, name);
    assert PinKey(channel, name) == channel + [0] + name;
    PinnedLookup(p2p, History(changes), channel, name);
  }

  lemma NotStored(p2p: Bucket, name: Bytes)
    requires Indexed(p2p) && forall e | e in p2p :: P2pName(e.value) != name
    ensures Get(p2p, Collated(name)).None?
  {
    hide Get, Collated;
    if Get(p2p, Collated(name)).Some? {
      ExactIsNamed(p2p, name, Get(p2p, Collated(name)).value);
    }
  }

  /** On the channels "" and "latest" no pin has an effect. */
  lemma UnpinnedChannels(p2p: Bucket, pins: Bucket, channel: Bytes, name: Bytes)
    requires Indexed(p2p) && (channel == [] || channel == LATEST)
    ensures Resolve(p2p, pins, channel, name) == Resolve(p2p, [], channel, name)
  {
  }

  /** A pin is looked up under the exact name asked for: setting one for a
      prefix leaves every other name alone, longer ones included. */
  lemma PinIsExact(p2p: Bucket, pins: Bucket, channel: Bytes, prefix: Bytes, version: Bytes, name: Bytes)
    requires Indexed(p2p) && name != prefix
    ensures Resolve(p2p, Put(pins, PinKey(channel, prefix), version), channel, name)
         == Resolve(p2p, pins, channel, name)
  {
    PinKeyOfChannel(channel, prefix, name);
    GetPut(pins, PinKey(channel, prefix), version, PinKey(channel, name));
  }

  lemma PinKeyOfChannel(channel: Bytes, p: Bytes, q: Bytes)
    ensures PinKey(channel, p) == PinKey(channel, q) ==> p == q
  {
    assert PinKey(channel, p)[|channel| + 1..] == p;
    assert PinKey(channel, q)[|channel| + 1..] == q;
  }
}
