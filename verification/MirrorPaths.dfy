/** The object tree of the mirror: `<hh>/<rest>`, a 64-digit hash split after
    the first byte, and everything else that can lie in the same directory. */
module MirrorPaths {
  import opened Bytes

  type Content = seq<byte>
  type Hash = string

  /** A place in the directory. A top-level entry that is a shard directory is
      not a place itself; the entries inside it are. */
  datatype Place = Top(name: string) | In(shard: string, name: string)

  /** A regular file, a directory, or anything else: a pipe, a dangling link. */
  datatype Node = File(content: Content) | Folder | Special

  type Directory = map<Place, Node>

  predicate IsLowerHex(s: string, len: nat) {
    |s| == len && forall i :: 0 <= i < |s| ==> '0' <= s[i] <= '9' || 'a' <= s[i] <= 'f'
  }

  lemma LowerHexIff(s: string, len: nat)
    ensures IsLowerHex(s, len) <==> |s| == len && forall i :: 0 <= i < |s| ==> s[i] in "0123456789abcdef"
  {
    forall i | 0 <= i < |s|
      ensures s[i] in "0123456789abcdef" <==> '0' <= s[i] <= '9' || 'a' <= s[i] <= 'f'
    {
      HexLetter(s[i]);
    }
  }

  lemma HexLetter(c: char)
    ensures c in "0123456789abcdef" <==> '0' <= c <= '9' || 'a' <= c <= 'f'
  {
    var digits := "0123456789abcdef";
    assert forall k :: 0 <= k < 16 ==> digits[k] as int == if k < 10 then 48 + k else 87 + k;
    if '0' <= c <= '9' {
      assert digits[c as int - 48] == c;
    } else if 'a' <= c <= 'f' {
      assert digits[c as int - 87] == c;
    }
  }

  predicate IsHash(h: Hash) { IsLowerHex(h, 64) }

  // ---- Paths in the branch ----

  /** str::split_once. */
  function SplitOnce(s: string, mark: char): (r: Option<(string, string)>)
    ensures r.Some? ==> s == r.value.0 + [mark] + r.value.1 && mark !in r.value.0
    ensures r.None? ==> mark !in s
  {
    if s == [] then None
    else if s[0] == mark then Some(([], s[1..]))
    else match SplitOnce(s[1..], mark)
         case None => None
         case Some(parts) => Some(([s[0]] + parts.0, parts.1))
  }

  function ParseObjectPath(path: string): Option<Hash> {
    match SplitOnce(path, '/')
    case None => None
    case Some((prefix, rest)) =>
      if IsLowerHex(prefix, 2) && IsLowerHex(rest, 62) then Some(prefix + rest) else None
  }

  function ObjectPath(h: Hash): string
    requires IsHash(h)
  {
    h[..2] + "/" + h[2..]
  }

  /** The path of a hash, and nothing else, parses to it. */
  lemma ParseObjectPathIff(path: string, h: Hash)
    ensures ParseObjectPath(path) == Some(h) <==> IsHash(h) && path == ObjectPath(h)
  {
    if IsHash(h) && path == ObjectPath(h) {
      SplitAtFirst(h[..2], '/', h[2..]);
      assert path == h[..2] + ['/'] + h[2..];
      assert h[..2] + h[2..] == h;
    }
    if ParseObjectPath(path) == Some(h) {
      var parts := SplitOnce(path, '/').value;
      assert h[..2] == parts.0 && h[2..] == parts.1;
    }
  }

  lemma {:induction false} SplitAtFirst(a: string, mark: char, b: string)
    requires mark !in a
    ensures SplitOnce(a + [mark] + b, mark) == Some((a, b))
  {
    var s := a + [mark] + b;
    if a == [] {
      assert s[1..] == b;
    } else {
      assert s[0] == a[0] && a[0] in a && a == [a[0]] + a[1..];
      assert s[1..] == a[1..] + [mark] + b;
      SplitAtFirst(a[1..], mark, b);
    }
  }

  // ---- Places on disk ----

  function ObjectPlace(h: Hash): Place
    requires IsHash(h)
  {
    In(h[..2], h[2..])
  }

  /** Where an object is written before it is renamed into place. */
  function TmpPlace(h: Hash): Place
    requires IsHash(h)
  {
    In(h[..2], "." + h[2..] + ".tmp")
  }

  predicate IsObjectPlace(p: Place) { p.In? && IsLowerHex(p.shard, 2) && IsLowerHex(p.name, 62) }

  predicate IsObject(dir: Directory, p: Place) { p in dir && IsObjectPlace(p) && dir[p].File? }

  /** What a scan reports: the objects, and every place that holds none. */
  ghost function Objects(dir: Directory): set<Hash> {
    set p | p in dir && IsObject(dir, p) :: p.shard + p.name
  }

  ghost function Junk(dir: Directory): set<Place> {
    set p | p in dir && !IsObject(dir, p)
  }

  predicate Holds(dir: Directory, h: Hash) { IsHash(h) && IsObject(dir, ObjectPlace(h)) }

  lemma PlaceOfHash(p: Place)
    requires IsObjectPlace(p)
    ensures IsHash(p.shard + p.name) && ObjectPlace(p.shard + p.name) == p
  {
    var h := p.shard + p.name;
    assert h[..2] == p.shard && h[2..] == p.name;
  }

  lemma HashOfPlace(h: Hash)
    requires IsHash(h)
    ensures IsObjectPlace(ObjectPlace(h)) && ObjectPlace(h).shard + ObjectPlace(h).name == h
  {
  }

  lemma ObjectsAre(dir: Directory, h: Hash)
    ensures h in Objects(dir) <==> Holds(dir, h)
  {
    if h in Objects(dir) {
      var p :| p in dir && IsObject(dir, p) && p.shard + p.name == h;
      PlaceOfHash(p);
    }
    if Holds(dir, h) {
      HashOfPlace(h);
      var p := ObjectPlace(h);
      assert p in dir && IsObject(dir, p) && p.shard + p.name == h;
    }
  }

  lemma PlacesAreApart(h: Hash, g: Hash)
    requires IsHash(h) && IsHash(g)
    ensures ObjectPlace(h) == ObjectPlace(g) ==> h == g
    ensures TmpPlace(h) == TmpPlace(g) ==> h == g
    ensures TmpPlace(h) != ObjectPlace(g) && TmpPlace(h).shard == ObjectPlace(h).shard
  {
    HashOfPlace(h);
    HashOfPlace(g);
    assert TmpPlace(h).name[1..63] == h[2..] && TmpPlace(g).name[1..63] == g[2..];
  }

  /** A temporary file is never taken for an object, whatever it holds. */
  lemma TmpIsNoObject(dir: Directory, h: Hash)
    requires IsHash(h)
    ensures !IsObjectPlace(TmpPlace(h))
    ensures TmpPlace(h) in dir ==> TmpPlace(h) in Junk(dir)
  {
    assert |TmpPlace(h).name| == 67;
  }
}
