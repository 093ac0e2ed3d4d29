/** Version pins of release channels: apkgdb/pin.go. */
module Pins {
  import opened Bytes
  import opened Buckets

  const LATEST: Bytes := [108, 97, 116, 101, 115, 116]   // "latest"

  /** pinKey: channel, NUL, prefix. */
  function PinKey(channel: Bytes, prefix: Bytes): Bytes {
    channel + [NUL] + prefix
  }

  method MakePinKey(channel: Bytes, prefix: Bytes) returns (r: Bytes)
    ensures r == PinKey(channel, prefix)
  {
    var k := new byte[|channel| + 1 + |prefix|];
    CopyInto(k, 0, channel);
    assert k[..|channel|] == channel;
    k[|channel|] := NUL;
    CopyInto(k, |channel| + 1, prefix);
    r := k[..];
    assert k[..|channel| + 1] == channel + [NUL];
    assert r == k[..|channel| + 1] + prefix;
  }

  /** copy(k[at:], s). */
  method CopyInto(k: array<byte>, at: nat, s: Bytes)
    requires at + |s| <= k.Length
    modifies k
    ensures k[..] == old(k[..at]) + s + old(k[at + |s|..])
  {
    for i := 0 to |s|
      invariant k[..at] == old(k[..at]) && k[at + |s|..] == old(k[at + |s|..])
      invariant k[at..at + i] == s[..i]
    {
      k[at + i] := s[i];
    }
    assert k[..] == k[..at] + k[at..at + |s|] + k[at + |s|..];
  }

  /** Pins of channels without NUL never share a key. */
  lemma PinKeyInjective(c: Bytes, p: Bytes, c': Bytes, p': Bytes)
    requires NUL !in c && NUL !in c' && PinKey(c, p) == PinKey(c', p')
    ensures c == c' && p == p'
  {
    var k := PinKey(c, p);
    assert k[|c|] == NUL && k[|c'|] == NUL;
    assert k[..|c|] == c && k[..|c'|] == c';
    assert k[|c| + 1..] == p && k[|c'| + 1..] == p';
  }

  /** With NUL in a channel two different pins can have one key. */
  lemma PinKeysCollide(a: Bytes, b: Bytes, c: Bytes)
    ensures PinKey(a + [NUL] + b, c) == PinKey(a, b + [NUL] + c)
  {
  }

  /** lookupPinTx: no pins for "" and "latest"; otherwise the exact name's pin. */
  function LookupPin(pins: Bucket, channel: Bytes, name: Bytes): Bytes {
    if channel == [] || channel == LATEST then []
    else
      match Get(pins, PinKey(channel, name))
      case Some(v) => v
      case None => []
  }

  // ----- Listing a channel

  /** The map holds exactly the channel's pins. */
  ghost predicate Lists(pins: seq<Entry>, channel: Bytes, m: map<Bytes, Bytes>) {
    forall p, v :: p in m && m[p] == v <==> Entry(PinKey(channel, p), v) in pins
  }

  /** ListPins: from the first key at or above the channel's prefix to the
      first key that does not start with it. */
  method ListPins(pins: Bucket, channel: Bytes) returns (result: map<Bytes, Bytes>)
    ensures Lists(pins, channel, result)
  {
    result := map[];
    var pfx := channel + [NUL];
    var start := Rank(pins, pfx);
    var i := start;
    while i < |pins|
      invariant start <= i <= |pins|
      invariant Lists(pins[start..i], channel, result)
    {
      var k := pins[i].key;
      if |k| < |pfx| || k[..|pfx|] != pfx {
        break;
      }
      ListOne(pins, start, i, channel, result);
      result := result[k[|pfx|..] := pins[i].value];
      i := i + 1;
    }
    AllListed(pins, channel, i, result);
  }

  lemma ListOne(pins: Bucket, start: nat, i: nat, channel: Bytes, m: map<Bytes, Bytes>)
    requires start <= i < |pins| && channel + [NUL] <= pins[i].key
    requires Lists(pins[start..i], channel, m)
    ensures Lists(pins[start..i + 1], channel, m[pins[i].key[|channel| + 1..] := pins[i].value])
  {
    var q := pins[i].key[|channel| + 1..];
    assert pins[i].key == PinKey(channel, q);
    assert pins[start..i + 1] == pins[start..i] + [pins[i]];
    forall p, v
      ensures p == q && Entry(PinKey(channel, p), v) in pins[start..i + 1] ==> v == pins[i].value
    {
      if Entry(PinKey(channel, q), v) in pins[start..i] {
        var j :| start <= j < i && pins[j] == Entry(PinKey(channel, q), v);
        LexTotal(pins[j].key, pins[i].key);
      }
    }
    forall p | p != q
      ensures PinKey(channel, p) != pins[i].key
    {
      assert PinKey(channel, p)[|channel| + 1..] == p;
    }
  }

  /** Keys with one prefix are contiguous in key order. */
  lemma PrefixContiguous(pfx: Bytes, a: Bytes, b: Bytes)
    requires !LexLess(a, pfx) && LexLess(a, b) && pfx <= b
    ensures pfx <= a
  {
    assert pfx + [] == pfx && pfx + b[|pfx|..] == b;
    LexBetween(pfx, [], a, b[|pfx|..]);
  }

  lemma NotBelowPrefix(pfx: Bytes, k: Bytes)
    requires pfx <= k
    ensures !LexLess(k, pfx)
  {
    assert pfx + [] == pfx && pfx + k[|pfx|..] == k;
    LexPrefix(pfx, k[|pfx|..], []);
  }

  lemma AllListed(pins: Bucket, channel: Bytes, i: nat, m: map<Bytes, Bytes>)
    requires Rank(pins, channel + [NUL]) <= i <= |pins|
    requires i < |pins| ==> !(channel + [NUL] <= pins[i].key)
    requires Lists(pins[Rank(pins, channel + [NUL])..i], channel, m)
    ensures Lists(pins, channel, m)
  {
    hide LexLess, Rank;
    var pfx := channel + [NUL];
    var start := Rank(pins, pfx);
    RankSplits(pins, pfx);
    forall p, v | Entry(PinKey(channel, p), v) in pins
      ensures Entry(PinKey(channel, p), v) in pins[start..i]
    {
      var j :| 0 <= j < |pins| && pins[j] == Entry(PinKey(channel, p), v);
      NotBelowPrefix(pfx, pins[j].key);
      if j > i {
        PrefixContiguous(pfx, pins[i].key, pins[j].key);
      }
      assert pins[start..i][j - start] == pins[j];
    }
  }

  // ----- Pins as left by a history of changes

  datatype Change = SetPin(channel: Bytes, prefix: Bytes, version: Bytes) | DeletePin(channel: Bytes, prefix: Bytes)

  /** What a change does to the bucket; bbolt refuses keys and values that are too long. */
  function Changed(pins: Bucket, c: Change): Bucket {
    match c
    case SetPin(ch, p, v) => if Storable(PinKey(ch, p), v) then Put(pins, PinKey(ch, p), v) else pins
    case DeletePin(ch, p) => Delete(pins, PinKey(ch, p))
  }

  function History(changes: seq<Change>): Bucket {
    if changes == [] then []
    else Changed(History(changes[..|changes| - 1]), changes[|changes| - 1])
  }

  /** The version a pin has: the last change of this very pin decides. */
  function Last(changes: seq<Change>, channel: Bytes, prefix: Bytes): Option<Bytes> {
    if changes == [] then None
    else
      var c := changes[|changes| - 1];
      if c.channel == channel && c.prefix == prefix then
        if c.DeletePin? then None
        else if Storable(PinKey(channel, prefix), c.version) then Some(c.version)
        else Last(changes[..|changes| - 1], channel, prefix)
      else Last(changes[..|changes| - 1], channel, prefix)
  }

  /** No change in the history is one of another pin with the same key. */
  ghost predicate Distinct(changes: seq<Change>, channel: Bytes, prefix: Bytes) {
    forall i | 0 <= i < |changes| && PinKey(changes[i].channel, changes[i].prefix) == PinKey(channel, prefix) ::
      changes[i].channel == channel && changes[i].prefix == prefix
  }

  ghost predicate NoNul(changes: seq<Change>) {
    forall i | 0 <= i < |changes| :: NUL !in changes[i].channel
  }

  lemma NoNulDistinct(changes: seq<Change>, channel: Bytes, prefix: Bytes)
    requires NoNul(changes) && NUL !in channel
    ensures Distinct(changes, channel, prefix)
  {
    forall i | 0 <= i < |changes| && PinKey(changes[i].channel, changes[i].prefix) == PinKey(channel, prefix)
      ensures changes[i].channel == channel && changes[i].prefix == prefix
    {
      PinKeyInjective(changes[i].channel, changes[i].prefix, channel, prefix);
    }
  }

  /** After a history that does not touch another pin of the same key, a pin
      reads as its own last change left it. */
  lemma {:induction false} PinAsLeft(changes: seq<Change>, channel: Bytes, prefix: Bytes)
    requires Distinct(changes, channel, prefix)
    ensures Get(History(changes), PinKey(channel, prefix)) == Last(changes, channel, prefix)
  {
    hide Get, Put, Delete, PinKey;
    if changes == [] {
      NoPin(PinKey(channel, prefix));
    } else {
      var front, c := changes[..|changes| - 1], changes[|changes| - 1];
      PinAsLeft(front, channel, prefix);
      var k := PinKey(c.channel, c.prefix);
      if c.SetPin? {
        GetPut(History(front), k, c.version, PinKey(channel, prefix));
      } else {
        GetDelete(History(front), k, PinKey(channel, prefix));
      }
    }
  }

  lemma NoPin(k: Bytes)
    ensures Get([], k) == None
  {
  }

  /** Whether a pin shares its key with no other pin, or cannot be stored at all. */
  predicate Safe(channel: Bytes, prefix: Bytes) {
    !Storable(PinKey(channel, prefix), []) || (NUL !in channel && NUL !in prefix)
  }

  /** A pin reads as its own last change left it, after every history of
      changes whatever, exactly when it is safe. */
  lemma AlwaysAsLeft(channel: Bytes, prefix: Bytes)
    ensures (forall changes :: Get(History(changes), PinKey(channel, prefix)) == Last(changes, channel, prefix))
            <==> Safe(channel, prefix)
  {
    if Safe(channel, prefix) {
      forall changes
        ensures Get(History(changes), PinKey(channel, prefix)) == Last(changes, channel, prefix)
      {
        SafeAsLeft(changes, channel, prefix);
      }
    } else {
      var changes := Mistaken(channel, prefix);
      assert Get(History(changes), PinKey(channel, prefix)) != Last(changes, channel, prefix);
    }
  }

  lemma SafeAsLeft(changes: seq<Change>, channel: Bytes, prefix: Bytes)
    requires Safe(channel, prefix)
    ensures Get(History(changes), PinKey(channel, prefix)) == Last(changes, channel, prefix)
  {
    if Storable(PinKey(channel, prefix), []) {
      forall i | 0 <= i < |changes| && PinKey(changes[i].channel, changes[i].prefix) == PinKey(channel, prefix)
        ensures changes[i].channel == channel && changes[i].prefix == prefix
      {
        OneNul(changes[i].channel, changes[i].prefix, channel, prefix);
      }
      PinAsLeft(changes, channel, prefix);
    } else {
      NeverStored(changes, channel, prefix);
    }
  }

  /** A key with a single NUL belongs to one pin. */
  lemma OneNul(c: Bytes, p: Bytes, c': Bytes, p': Bytes)
    requires NUL !in c' && NUL !in p' && PinKey(c, p) == PinKey(c', p')
    ensures c == c' && p == p'
  {
    var k := PinKey(c, p);
    assert k[|c|] == NUL;
    assert k[..|c'|] == c' && k[|c'| + 1..] == p';
    assert forall i | 0 <= i < |c'| :: k[i] == c'[i];
    assert forall i | |c'| < i < |k| :: k[i] == p'[i - |c'| - 1];
    assert |c| == |c'|;
    assert k[..|c|] == c && k[|c| + 1..] == p;
  }

  lemma {:induction false} NeverStored(changes: seq<Change>, channel: Bytes, prefix: Bytes)
    requires !Storable(PinKey(channel, prefix), [])
    ensures Get(History(changes), PinKey(channel, prefix)) == None == Last(changes, channel, prefix)
  {
    hide Get, Put, Delete, PinKey;
    if changes == [] {
      NoPin(PinKey(channel, prefix));
    } else {
      var front, c := changes[..|changes| - 1], changes[|changes| - 1];
      NeverStored(front, channel, prefix);
      var k := PinKey(c.channel, c.prefix);
      if c.SetPin? {
        assert k == PinKey(channel, prefix) ==> !Storable(k, c.version);
        GetPut(History(front), k, c.version, PinKey(channel, prefix));
      } else {
        GetDelete(History(front), k, PinKey(channel, prefix));
      }
    }
  }

  /** One change, of another pin, that a pin with NUL is mistaken for. */
  lemma Mistaken(channel: Bytes, prefix: Bytes) returns (changes: seq<Change>)
    requires !Safe(channel, prefix)
    ensures Get(History(changes), PinKey(channel, prefix)) == Some([])
    ensures Last(changes, channel, prefix) == None
  {
    var c, p := OtherPin(channel, prefix);
    var k := PinKey(channel, prefix);
    changes := [SetPin(c, p, [])];
    assert changes[..0] == [];
    GetPut([], k, [], k);
  }

  lemma OtherPin(channel: Bytes, prefix: Bytes) returns (c: Bytes, p: Bytes)
    requires NUL in channel || NUL in prefix
    ensures PinKey(c, p) == PinKey(channel, prefix) && (c != channel || p != prefix)
  {
    if NUL in channel {
      var i :| 0 <= i < |channel| && channel[i] == NUL;
      c, p := channel[..i], channel[i + 1..] + [NUL] + prefix;
      assert channel == channel[..i] + [NUL] + channel[i + 1..];
      PinKeysCollide(c, channel[i + 1..], prefix);
    } else {
      var i :| 0 <= i < |prefix| && prefix[i] == NUL;
      c, p := channel + [NUL] + prefix[..i], prefix[i + 1..];
      assert prefix == prefix[..i] + [NUL] + prefix[i + 1..];
      PinKeysCollide(channel, prefix[..i], p);
    }
  }

  /** What a listing shows of one pin. */
  ghost predicate ListedRight(changes: seq<Change>, channel: Bytes, m: map<Bytes, Bytes>, p: Bytes) {
    && (p in m <==> Last(changes, channel, p).Some?)
    && (p in m ==> Last(changes, channel, p) == Some(m[p]))
  }

  lemma ListedOne(changes: seq<Change>, channel: Bytes, m: map<Bytes, Bytes>, p: Bytes)
    requires Lists(History(changes), channel, m)
    requires Get(History(changes), PinKey(channel, p)) == Last(changes, channel, p)
    ensures ListedRight(changes, channel, m, p)
  {
    hide Get, PinKey;
    var k := PinKey(channel, p);
    if p in m {
      assert Entry(k, m[p]) in History(changes);
      GetStored(History(changes), k, m[p]);
    }
    if Last(changes, channel, p).Some? {
      GetStored(History(changes), k, Last(changes, channel, p).value);
    }
  }

  /** Listing a channel shows each of its pins as the history left it: every
      safe pin after any history whatever, and all pins of a channel without NUL
      after a history of such channels. */
  lemma ListedAsLeft(changes: seq<Change>, channel: Bytes, m: map<Bytes, Bytes>)
    requires Lists(History(changes), channel, m)
    ensures forall p | Safe(channel, p) :: ListedRight(changes, channel, m, p)
    ensures NoNul(changes) && NUL !in channel ==> forall p :: ListedRight(changes, channel, m, p)
  {
    hide ListedRight, Safe, History, Last;
    forall p | Safe(channel, p) || (NoNul(changes) && NUL !in channel)
      ensures ListedRight(changes, channel, m, p)
    {
      if Safe(channel, p) {
        SafeAsLeft(changes, channel, p);
      } else {
        NoNulDistinct(changes, channel, p);
        PinAsLeft(changes, channel, p);
      }
      ListedOne(changes, channel, m, p);
    }
  }

  /** The pins of a database: the bucket and the active channel. */
  class PinTable {
    var pins: Bucket
    var channel: Bytes

    constructor (pins: Bucket, channel: Bytes)
      ensures this.pins == pins && this.channel == channel
    {
      this.pins := pins;
      this.channel := channel;
    }

    /** SetPin: false when bbolt refuses the key or the version. */
    method SetPin(channel: Bytes, prefix: Bytes, version: Bytes) returns (ok: bool)
      modifies this`pins
      ensures ok == Storable(PinKey(channel, prefix), version)
      ensures pins == Changed(old(pins), Change.SetPin(channel, prefix, version))
    {
      var k := MakePinKey(channel, prefix);
      ok := Storable(k, version);
      if ok {
        pins := Put(pins, k, version);
      }
    }

    method DeletePin(channel: Bytes, prefix: Bytes)
      modifies this`pins
      ensures pins == Changed(old(pins), Change.DeletePin(channel, prefix))
    {
      var k := MakePinKey(channel, prefix);
      pins := Delete(pins, k);
    }

    /** GetPin: the empty version when there is no pin. */
    method GetPin(channel: Bytes, prefix: Bytes) returns (v: Bytes)
      ensures Get(pins, PinKey(channel, prefix)) == Some(v)
           || (v == [] && Get(pins, PinKey(channel, prefix)).None?)
    {
      var k := MakePinKey(channel, prefix);
      var r := Get(pins, k);
      v := if r.Some? then r.value else [];
    }

    method LookupPinTx(name: Bytes) returns (v: Bytes)
      ensures v == LookupPin(pins, channel, name)
    {
      if channel == [] || channel == LATEST {
        return [];
      }
      var k := MakePinKey(channel, name);
      var r := Get(pins, k);
      v := if r.Some? then r.value else [];
    }
  }
}
