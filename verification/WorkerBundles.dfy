/** Serving one object, with the cache of hashes already checked. */
module WorkerBundles {
  import opened Bytes
  import opened MirrorPaths
  import opened MirrorRuns

  class BundleServer {
    const keccak: Keccak
    var verified: set<Hash>

    constructor (keccak: Keccak)
      ensures this.keccak == keccak && verified == {}
    {
      this.keccak, verified := keccak, {};
    }

    /** 200 with the file's bytes, or None for 404. */
    method Serve(enabled: bool, prefix: string, rest: string, dir: Directory) returns (r: Option<Content>)
      modifies this`verified
      ensures r.Some? <==>
                && enabled && IsLowerHex(prefix, 2) && IsLowerHex(rest, 62) && IsObject(dir, In(prefix, rest))
                && (prefix + rest in old(verified) || keccak(dir[In(prefix, rest)].content) == prefix + rest)
      ensures r.Some? ==> r.value == dir[In(prefix, rest)].content
      ensures verified == if r.Some? then old(verified) + {prefix + rest} else old(verified)
    {
      if !enabled || !IsLowerHex(prefix, 2) || !IsLowerHex(rest, 62) {
        return None;
      }
      var hash, path := prefix + rest, In(prefix, rest);
      if path !in dir || !dir[path].File? {
        return None;
      }
      var bytes := dir[path].content;
      if hash !in verified {
        if keccak(bytes) != hash {
          return None;
        }
        verified := verified + {hash};
      }
      return Some(bytes);
    }
  }
}
