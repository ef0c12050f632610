/** File names of cache keys: which keys share a name, and that the keys the OCI loader uses never do. */
module CacheNames {
  import opened Common
  import opened CacheModel
  import opened CacheRefinement
  import opened CacheHistory

  /** A letter, a digit, '-', '_' or '.'. */
  ghost predicate KeptChar(ch: char) {
    'a' <= ch <= 'z' || 'A' <= ch <= 'Z' || '0' <= ch <= '9' || ch == '-' || ch == '_' || ch == '.'
  }

  /** How a character of the key shows in the file name. */
  ghost function Shown(ch: char): char {
    if KeptChar(ch) then ch else '_'
  }

  lemma {:induction false} SanitizeMeaning(key: string)
    ensures |SanitizeKey(key)| == |key|
    ensures forall i :: 0 <= i < |key| ==> SanitizeKey(key)[i] == Shown(key[i])
  {
    if key != "" {
      SanitizeMeaning(key[..|key| - 1]);
    }
  }

  /** The file name is the key as shown, with the extension ".cue". */
  lemma PathMeaning(key: string)
    ensures |ContentPath(key)| == |key| + 4
    ensures forall i :: 0 <= i < |key| ==> ContentPath(key)[i] == Shown(key[i])
    ensures ContentPath(key)[|key|..] == ".cue"
  {
    SanitizeMeaning(key);
  }

  /** Two keys show alike: the same length, and at each place the same character or one that becomes '_' on
      both sides. */
  ghost predicate ShowAlike(a: string, b: string) {
    |a| == |b| && forall i :: 0 <= i < |a| ==> Shown(a[i]) == Shown(b[i])
  }

  /** Exactly which keys share a file. */
  lemma SamePathIff(a: string, b: string)
    ensures ContentPath(a) == ContentPath(b) <==> ShowAlike(a, b)
  {
    PathMeaning(a);
    PathMeaning(b);
    if ShowAlike(a, b) {
      assert ContentPath(a)[..|a|] == ContentPath(b)[..|b|];
      assert ContentPath(a) == ContentPath(a)[..|a|] + ".cue" && ContentPath(b) == ContentPath(b)[..|b|] + ".cue";
    }
    if ContentPath(a) == ContentPath(b) {
      forall i | 0 <= i < |a| ensures Shown(a[i]) == Shown(b[i]) {
        assert ContentPath(a)[i] == ContentPath(b)[i];
      }
    }
  }

  // ---- keys that never share a file ----

  ghost predicate HexDigit(ch: char) {
    '0' <= ch <= '9' || 'a' <= ch <= 'f'
  }

  /** A manifest digest: "sha256:" and hexadecimal digits. */
  ghost predicate IsDigest(key: string) {
    |key| >= 7 && key[..7] == "sha256:" && forall i :: 7 <= i < |key| ==> HexDigit(key[i])
  }

  lemma DigestsDiffer(a: string, b: string)
    requires IsDigest(a) && IsDigest(b) && ContentPath(a) == ContentPath(b)
    ensures a == b
  {
    SamePathIff(a, b);
    forall i | 0 <= i < |a| ensures a[i] == b[i] {
      if i < 7 {
        assert a[i] == a[..7][i] && b[i] == b[..7][i];
      } else {
        assert Shown(a[i]) == Shown(b[i]);
      }
    }
  }

  /** Every set of digests has distinct file names. */
  lemma DigestNamesDistinct(names: set<string>)
    requires forall k :: k in names ==> IsDigest(k)
    ensures NamesDistinct(ContentPath, names)
  {
    forall a, b | a in names && b in names && ContentPath(a) == ContentPath(b) ensures a == b {
      DigestsDiffer(a, b);
    }
  }

  /** The keys that an operation names are digests. */
  ghost predicate OnDigests(op: Op) {
    match op
    case Get(key, _) => IsDigest(key)
    case Set(key, _, _, _, _) => IsDigest(key)
    case Delete(key, _) => IsDigest(key)
    case _ => true
  }

  ghost function KeysNamed(ops: seq<Op>): (names: set<string>)
    ensures (forall i :: 0 <= i < |ops| ==> OnDigests(ops[i])) ==> forall k :: k in names ==> IsDigest(k)
    ensures forall i :: 0 <= i < |ops| ==> Mentions(ops[i], names)
  {
    set i | 0 <= i < |ops| && (ops[i].Get? || ops[i].Set? || ops[i].Delete?) :: ops[i].key
  }

  /** Over every trace on digests a lookup returns the latest stored bytes, and misses exactly when the key
      was never stored, has left, or is too old; no assumption about file names is left. */
  lemma DigestLookup(max: int, ttl: int, ops: seq<Op>, key: string, now: int)
    requires max >= 1 && forall i :: 0 <= i < |ops| ==> OnDigests(ops[i])
    ensures var b := MapAfter(max, ttl, ops);
            Lookup(max, ttl, ops, key, now) ==
              if key in b.cells && now - b.cells[key].born <= ttl then Latest(ops, key) else None
    ensures Lookup(max, ttl, ops, key, now).Some? <==>
              && !NeverStored(ops, key) && !(exists i :: LeftAt(max, ttl, ops, key, i))
              && !Stale(MapAfter(max, ttl, ops), key, now)
  {
    DigestNamesDistinct(KeysNamed(ops));
    LookupMeaning(KeysNamed(ops), max, ttl, ops, key, now);
  }

  // ---- keys that do share a file ----

  /** The key of the Git loader. */
  function GitKey(url: string, commit: string, path: string): string {
    "git:" + url + ":" + commit + (if path == "" then "" else ":" + path)
  }

  /** In every repository at every commit, two paths that show alike share a file. */
  lemma GitPathsCollide(url: string, commit: string, p: string, q: string)
    requires p != "" && q != "" && ShowAlike(p, q)
    ensures ContentPath(GitKey(url, commit, p)) == ContentPath(GitKey(url, commit, q))
  {
    var prefix := "git:" + url + ":" + commit + ":";
    assert GitKey(url, commit, p) == prefix + p && GitKey(url, commit, q) == prefix + q;
    forall i | 0 <= i < |prefix + p| ensures Shown((prefix + p)[i]) == Shown((prefix + q)[i]) {
      if i >= |prefix| {
        assert Shown(p[i - |prefix|]) == Shown(q[i - |prefix|]);
      }
    }
    SamePathIff(prefix + p, prefix + q);
  }

  /** For instance "a/b" and "a_b". */
  lemma SlashShowsAsUnderscore()
    ensures "a/b" != "a_b" && ShowAlike("a/b", "a_b")
  {
    assert "a/b"[1] != "a_b"[1];
  }
}
