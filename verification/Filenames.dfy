/** Package file names, "category.name.subcategory.version.os.arch":
    parsePackageFilename and the list of names in the metadata, of
    cmd/apkg-convert/process.go. */
module Filenames {
  import opened Bytes
  import R = Resolve

  /** strings.Join(parts, "."). */
  function Join(parts: seq<Bytes>): Bytes {
    if parts == [] then []
    else if |parts| == 1 then parts[0]
    else parts[0] + [DOT] + Join(parts[1..])
  }

  function FirstDot(s: Bytes): (i: nat)
    ensures i <= |s| && DOT !in s[..i]
    ensures i < |s| ==> s[i] == DOT
  {
    if s == [] || s[0] == DOT then 0
    else
      var i := 1 + FirstDot(s[1..]);
      assert s[..i] == [s[0]] + s[1..][..i - 1];
      i
  }

  /** strings.Split(s, "."). */
  function Split(s: Bytes): (parts: seq<Bytes>)
    ensures parts != []
    decreases |s|
  {
    var i := FirstDot(s);
    if i == |s| then [s] else [s[..i]] + Split(s[i + 1..])
  }

  lemma {:induction false} JoinSplit(s: Bytes)
    ensures Join(Split(s)) == s
    ensures forall p | p in Split(s) :: DOT !in p
    decreases |s|
  {
    var i := FirstDot(s);
    if i < |s| {
      JoinSplit(s[i + 1..]);
      assert Split(s)[1..] == Split(s[i + 1..]);
      assert s == s[..i] + [DOT] + s[i + 1..];
    } else {
      assert s[..i] == s;
    }
  }

  lemma {:induction false} JoinApart(a: seq<Bytes>, b: seq<Bytes>)
    requires a != [] && b != []
    ensures Join(a + b) == Join(a) + [DOT] + Join(b)
  {
    if |a| == 1 {
      assert (a + b)[1..] == b;
    } else {
      assert (a + b)[1..] == a[1..] + b;
      JoinApart(a[1..], b);
      Dotted(a[0], Join(a[1..]), Join(b));
    }
  }

  lemma Dotted(x: Bytes, y: Bytes, z: Bytes)
    ensures x + [DOT] + (y + [DOT] + z) == x + [DOT] + y + [DOT] + z
  {
    Assoc(x + [DOT], y + [DOT], z);
    Assoc(x + [DOT], y, [DOT]);
  }

  // ----- parsePackageFilename

  datatype Name = Name(category: Bytes, name: Bytes, subcategory: Bytes, version: seq<Bytes>, os: Bytes, arch: Bytes,
                       components: seq<Bytes>)

  /** Slices of the parts; an error for fewer than five. */
  method ParsePackageFilename(filename: Bytes) returns (n: Option<Name>)
    ensures n.None? <==> |Split(filename)| < 5
    ensures n.Some? ==>
              && n.value.components == [n.value.category, n.value.name, n.value.subcategory]
              && Split(filename) == n.value.components + n.value.version + [n.value.os, n.value.arch]
              && filename == Join(n.value.components + n.value.version + [n.value.os, n.value.arch])
  {
    JoinSplit(filename);
    var parts := Split(filename);
    if |parts| < 5 {
      return None;
    }
    var arch, os := parts[|parts| - 1], parts[|parts| - 2];
    var front := parts[..|parts| - 2];
    assert parts == front + [os, arch] && front == front[..3] + front[3..];
    n := Some(Name(front[0], front[1], front[2], front[3..], os, arch, front[..3]));
  }

  /** A lookup takes operating system and architecture off such a name exactly as
      the converter does, for all systems and architectures it knows. */
  lemma FilenameSplits(front: seq<Bytes>, os: Bytes, arch: Bytes)
    requires front != [] && DOT !in os && DOT !in arch
    requires R.Parse(R.OSES, os) != R.BAD && R.Parse(R.ARCHES, arch) != R.BAD
    ensures R.SplitName(Join(front + [os, arch])) ==
              R.For(Join(front), R.ArchOS(R.Parse(R.OSES, os), R.Parse(R.ARCHES, arch)))
  {
    hide *;
    TwoApart(front, os, arch);
    R.SuffixSplits(Join(front), os, arch);
  }

  lemma TwoApart(front: seq<Bytes>, os: Bytes, arch: Bytes)
    requires front != []
    ensures Join(front + [os, arch]) == Join(front) + [DOT] + os + [DOT] + arch
  {
    JoinApart(front, [os, arch]);
    assert Join([os, arch]) == os + [DOT] + arch by {
      assert [os, arch][1..] == [arch];
    }
    Dotted(Join(front), os, arch);
  }

  // ----- The names a package is listed under

  /** The first three parts, and then one more version part at a time. */
  function NamesOf(parts: seq<Bytes>): seq<Bytes>
    requires |parts| >= 5
  {
    seq(|parts| - 4, i requires 0 <= i < |parts| - 4 => Join(parts[..3 + i]))
  }

  /** Category, subcategory and version parts are slices of one array, so each
      append writes into the version parts still to be read: it writes what is there. */
  method ListNames(parts: array<Bytes>) returns (names: seq<Bytes>)
    requires parts.Length >= 5
    modifies parts
    ensures parts[..] == old(parts[..])
    ensures names == NamesOf(old(parts[..]))
  {
    hide Join;
    var tmp := 3;
    names := [Join(parts[..3])];
    for i := 0 to parts.Length - 5
      invariant tmp == 3 + i && parts[..] == old(parts[..])
      invariant names == NamesOf(old(parts[..]))[..i + 1]
    {
      parts[tmp] := parts[3 + i];
      tmp := tmp + 1;
      assert parts[..] == old(parts[..]);
      assert parts[..tmp] == parts[..][..tmp];
      names := names + [Join(parts[..tmp])];
    }
  }

  /** Every name a package is listed under is one a prefix lookup can find it by:
      its full name continues the listed one with a dot. */
  lemma NamesMatch(filename: Bytes, i: nat)
    requires |Split(filename)| >= 5 && i < |NamesOf(Split(filename))|
    ensures NamesOf(Split(filename))[i] + [DOT] <= filename
  {
    hide Split, Join;
    var parts := Split(filename);
    JoinSplit(filename);
    assert parts == parts[..3 + i] + parts[3 + i..];
    JoinApart(parts[..3 + i], parts[3 + i..]);
  }

  /** The names listed for a file: its first three parts, then one more at a
      time, up to all that precedes operating system and architecture. */
  lemma ListedNames(filename: Bytes)
    requires |Split(filename)| >= 5
    ensures var parts := Split(filename);
            var names, n := NamesOf(parts), |parts| - 5;
            && |names| == n + 1 && names[0] == parts[0] + [DOT] + parts[1] + [DOT] + parts[2]
            && (forall i | 0 <= i < n :: names[i + 1] == names[i] + [DOT] + parts[3 + i])
            && filename == names[n] + [DOT] + parts[n + 3] + [DOT] + parts[n + 4]
  {
    hide Split, Join;
    var parts := Split(filename);
    var names, n := NamesOf(parts), |parts| - 5;
    JoinSplit(filename);
    JoinOne(parts[0]);
    ThreeJoined(parts[0], parts[1], parts[2]);
    assert parts[..3] == [parts[0], parts[1], parts[2]];
    forall i | 0 <= i < n
      ensures names[i + 1] == names[i] + [DOT] + parts[3 + i]
    {
      assert parts[..4 + i] == parts[..3 + i] + [parts[3 + i]];
      JoinOne(parts[3 + i]);
      JoinApart(parts[..3 + i], [parts[3 + i]]);
    }
    assert parts == parts[..n + 3] + [parts[n + 3], parts[n + 4]];
    TwoApart(parts[..n + 3], parts[n + 3], parts[n + 4]);
  }

  lemma JoinOne(x: Bytes)
    ensures Join([x]) == x
  {
  }

  lemma ThreeJoined(x: Bytes, y: Bytes, z: Bytes)
    ensures Join([x, y, z]) == x + [DOT] + y + [DOT] + z
  {
    hide Join;
    JoinOne(x);
    TwoApart([x], y, z);
    assert [x] + [y, z] == [x, y, z];
  }
}
