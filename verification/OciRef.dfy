/** Parsing OCI references (pkg/platformloader/oci.go, `parseOCIRef`). */
module OciRef {
  import opened Common

  datatype Parsed = Parsed(registry: string, repo: string, tag: string, digest: string)

  const HUB := "registry-1.docker.io"

  // ---- strings ----

  /** `strings.LastIndex` of one character; -1 when it does not occur. */
  function LastIndex(s: string, ch: char): (i: int)
    ensures -1 <= i < |s|
    ensures i >= 0 ==> s[i] == ch && ch !in s[i + 1..]
    ensures i < 0 ==> ch !in s
  {
    if s == "" then -1
    else if s[|s| - 1] == ch then |s| - 1
    else
      var i := LastIndex(s[..|s| - 1], ch);
      assert i >= 0 ==> s[i + 1..] == s[..|s| - 1][i + 1..] + [s[|s| - 1]];
      assert s == s[..|s| - 1] + [s[|s| - 1]];
      i
  }

  /** Position of the first occurrence; -1 when there is none. */
  function Index(s: string, ch: char): (i: int)
    ensures -1 <= i < |s|
    ensures i >= 0 ==> s[i] == ch && ch !in s[..i]
    ensures i < 0 ==> ch !in s
  {
    if s == "" then -1
    else if s[0] == ch then 0
    else
      var i := Index(s[1..], ch);
      assert i >= 0 ==> s[..i + 1] == [s[0]] + s[1..][..i];
      if i < 0 then -1 else i + 1
  }

  // ---- the parser ----

  /** A reference cut at its last '@' and then at a colon that no '/' follows. */
  datatype Cut = Cut(base: string, tag: Option<string>, digest: Option<string>)

  function CutDigest(s: string): (string, Option<string>) {
    var at := LastIndex(s, '@');
    if at < 0 then (s, None) else (s[..at], Some(s[at + 1..]))
  }

  function CutTag(s: string): (string, Option<string>) {
    var colon := LastIndex(s, ':');
    if colon < 0 || '/' in s[colon + 1..] then (s, None) else (s[..colon], Some(s[colon + 1..]))
  }

  function Split(s: string): Cut {
    var (named, digest) := CutDigest(s);
    var (base, tag) := CutTag(named);
    Cut(base, tag, digest)
  }

  function OrEmpty(s: Option<string>): string {
    if s.Some? then s.value else ""
  }

  predicate LooksLikeRegistry(s: string) {
    '.' in s || ':' in s || s == "localhost"
  }

  function Resolve(base: string, tag: string, digest: string): Result<Parsed, string> {
    var slash := Index(base, '/');
    if slash < 0 then Err(base)
    else
      var head, rest := base[..slash], base[slash + 1..];
      if LooksLikeRegistry(head) then Ok(Parsed(head, rest, tag, digest))
      else Ok(Parsed(HUB, if '/' in base then base else "library/" + base, tag, digest))
  }

  function Parse(s: string): Result<Parsed, string> {
    var c := Split(s);
    var digest := OrEmpty(c.digest);
    var kept := if digest == "" then OrEmpty(c.tag) else "";
    Resolve(c.base, if kept == "" && digest == "" then "latest" else kept, digest)
  }

  /** `parseOCIRef`, narrowing the reference step by step. */
  method ParseOCIRef(input: string) returns (r: Result<Parsed, string>)
    ensures r == Parse(input)
  {
    var ref, tag, digest := input, "", "";
    ref, digest := StripDigest(ref);
    ref, tag := StripTag(ref, digest);
    if tag == "" && digest == "" {
      tag := "latest";
    }
    r := SplitRegistry(ref, tag, digest);
  }

  method StripDigest(ref: string) returns (rest: string, digest: string)
    ensures rest == CutDigest(ref).0 && digest == OrEmpty(CutDigest(ref).1)
  {
    rest, digest := ref, "";
    var at := LastIndex(ref, '@');
    if at != -1 {
      digest := ref[at + 1..];
      rest := ref[..at];
    }
  }

  method StripTag(ref: string, digest: string) returns (rest: string, tag: string)
    ensures rest == CutTag(ref).0 && tag == if digest == "" then OrEmpty(CutTag(ref).1) else ""
  {
    rest, tag := ref, "";
    var colon := LastIndex(ref, ':');
    if colon != -1 {
      var afterColon := ref[colon + 1..];
      if '/' !in afterColon {
        if digest == "" {
          tag := afterColon;
        }
        rest := ref[..colon];
      }
    }
  }

  /** The end of `parseOCIRef`: registry and repository. */
  method SplitRegistry(ref: string, tag: string, digest: string) returns (r: Result<Parsed, string>)
    ensures r == Resolve(ref, tag, digest)
  {
    var slash := Index(ref, '/');
    if slash == -1 {
      return Err(ref);
    }
    var head, rest := ref[..slash], ref[slash + 1..];
    if '.' in head || ':' in head || head == "localhost" {
      return Ok(Parsed(head, rest, tag, digest));
    }
    var repo := ref;
    if '/' !in repo {
      repo := "library/" + repo;
    }
    return Ok(Parsed(HUB, repo, tag, digest));
  }

  // ---- nothing is lost by cutting ----

  function Suffix(mark: char, s: Option<string>): string {
    if s.Some? then [mark] + s.value else ""
  }

  lemma CutDigestCovers(s: string)
    ensures var (named, digest) := CutDigest(s);
            s == named + Suffix('@', digest) && (if digest.Some? then '@' !in digest.value else '@' !in s)
  {
    var at := LastIndex(s, '@');
    if at >= 0 {
      assert s == s[..at] + ([s[at]] + s[at + 1..]);
    }
  }

  lemma CutTagCovers(s: string)
    ensures var (base, tag) := CutTag(s);
            s == base + Suffix(':', tag) && (tag.Some? ==> ':' !in tag.value && '/' !in tag.value)
  {
    var colon := LastIndex(s, ':');
    if colon >= 0 {
      assert s == s[..colon] + ([s[colon]] + s[colon + 1..]);
    }
  }

  /** The pieces put back together give the reference, and each cut is where the format says: no '@' in
      the digest, neither ':' nor '/' in the tag. */
  lemma SplitCovers(s: string)
    ensures var c := Split(s);
            && s == c.base + Suffix(':', c.tag) + Suffix('@', c.digest)
            && (if c.digest.Some? then '@' !in c.digest.value else '@' !in s)
            && (c.tag.Some? ==> ':' !in c.tag.value && '/' !in c.tag.value)
  {
    CutDigestCovers(s);
    CutTagCovers(CutDigest(s).0);
  }

  /** A first component that names a registry: it has a dot or a colon, or is "localhost". */
  ghost predicate NamesRegistry(s: string) {
    (exists i :: 0 <= i < |s| && (s[i] == '.' || s[i] == ':')) || s == "localhost"
  }

  lemma RegistryMeaning(s: string)
    ensures LooksLikeRegistry(s) <==> NamesRegistry(s)
  {
  }

  /** `head` is what comes before the first '/' of `base`. */
  ghost predicate FirstComponent(base: string, head: string) {
    |head| < |base| && base[..|head|] == head && base[|head|] == '/' && '/' !in head
  }

  /** Registry and repository, told by the first component. */
  ghost predicate Located(base: string, registry: string, repo: string) {
    exists head :: FirstComponent(base, head) &&
      if NamesRegistry(head) then registry == head && repo == base[|head| + 1..]
      else registry == "registry-1.docker.io" && repo == base
  }

  lemma ResolveMeaning(base: string, tag: string, digest: string)
    ensures Resolve(base, tag, digest).Err? <==> '/' !in base
    ensures Resolve(base, tag, digest).Ok? ==>
              var p := Resolve(base, tag, digest).value;
              Located(base, p.registry, p.repo) && p.tag == tag && p.digest == digest
  {
    var slash := Index(base, '/');
    if slash >= 0 {
      RegistryMeaning(base[..slash]);
      assert FirstComponent(base, base[..slash]);
      assert base[slash] in base;
    }
  }

  /** When parsing succeeds and what it returns: the part before tag and digest must contain a '/', and
      is either registry and repository or, on Docker Hub, the whole repository. In particular the
      `library/` prefix is never added. */
  lemma ParseMeaning(s: string)
    ensures Parse(s).Err? <==> '/' !in Split(s).base
    ensures Parse(s).Ok? ==>
              var c, p := Split(s), Parse(s).value;
              && Located(c.base, p.registry, p.repo)
              && p.digest == (if c.digest.Some? then c.digest.value else "")
              && p.tag == (if p.digest != "" then ""
                           else if c.tag.Some? && c.tag.value != "" then c.tag.value
                           else "latest")
  {
    var c := Split(s);
    var digest := OrEmpty(c.digest);
    var kept := if digest == "" then OrEmpty(c.tag) else "";
    ResolveMeaning(c.base, if kept == "" && digest == "" then "latest" else kept, digest);
  }

  /** Where the cuts are made: at the last '@', and then at the last ':' unless a '/' follows it. */
  lemma SplitMeaning(s: string)
    ensures var c := Split(s);
            var named := c.base + Suffix(':', c.tag);
            && s == named + Suffix('@', c.digest)
            && (c.digest.Some? <==> '@' in s) && (c.digest.Some? ==> '@' !in c.digest.value)
            && (c.tag.Some? <==> exists i :: 0 <= i < |named| && named[i] == ':' && '/' !in named[i..])
            && (c.tag.Some? ==> ':' !in c.tag.value && '/' !in c.tag.value)
  {
    SplitCovers(s);
    var named := CutDigest(s).0;
    var c := Split(s);
    CutDigestCovers(s);
    CutTagCovers(named);
    if c.digest.Some? {
      assert (named + Suffix('@', c.digest))[|named|] == '@';
    }
    var colon := LastIndex(named, ':');
    if c.tag.Some? {
      assert named[colon..] == [':'] + named[colon + 1..];
    }
    if i :| 0 <= i < |named| && named[i] == ':' && '/' !in named[i..] {
      LastColonAfter(named, i, colon);
    }
  }

  lemma LastColonAfter(s: string, i: nat, colon: int)
    requires i < |s| && s[i] == ':' && '/' !in s[i..] && colon == LastIndex(s, ':')
    ensures colon >= i && '/' !in s[colon + 1..]
  {
    assert s[i] in s;
    assert s[colon + 1..] == s[i..][colon + 1 - i..];
  }

  // ---- printing and parsing ----

  ghost predicate GoodRegistry(s: string) {
    '/' !in s && '@' !in s && NamesRegistry(s)
  }

  predicate GoodRepo(s: string) {
    ':' !in s && '@' !in s
  }

  predicate GoodTag(s: string) {
    s != "" && '/' !in s && ':' !in s && '@' !in s
  }

  predicate GoodDigest(s: string) {
    s != "" && '@' !in s
  }

  /** The four written forms. */
  function Print(registry: string, repo: string, tag: Option<string>, digest: Option<string>): string {
    registry + "/" + repo + Suffix(':', tag) + Suffix('@', digest)
  }

  lemma {:induction false} LastIndexAppend(a: string, ch: char, b: string)
    requires ch !in b
    ensures LastIndex(a + [ch] + b, ch) == |a|
    decreases |b|
  {
    var s := a + [ch] + b;
    if b == "" {
      assert s[|s| - 1] == ch;
    } else {
      var b' := b[..|b| - 1];
      assert s[|s| - 1] == b[|b| - 1] && s[|s| - 1] != ch;
      assert s[..|s| - 1] == a + [ch] + b';
      LastIndexAppend(a, ch, b');
    }
  }

  lemma IndexAppend(a: string, ch: char, b: string)
    requires ch !in a
    ensures Index(a + [ch] + b, ch) == |a|
  {
    var s := a + [ch] + b;
    var i := Index(s, ch);
    assert s[|a|] == ch;
    assert forall k :: 0 <= k < i ==> s[k] == s[..i][k];
    assert forall k :: 0 <= k < |a| ==> s[k] == a[k];
  }

  lemma SliceAround(a: string, ch: char, b: string)
    ensures (a + [ch] + b)[..|a|] == a && (a + [ch] + b)[|a| + 1..] == b
  {
  }

  lemma Regroup(a: string, ch: char, b: string)
    ensures a + ([ch] + b) == a + [ch] + b
  {
  }

  lemma CutDigestAt(named: string, digest: string)
    requires '@' !in digest
    ensures CutDigest(named + ['@'] + digest) == (named, Some(digest))
  {
    LastIndexAppend(named, '@', digest);
    SliceAround(named, '@', digest);
  }

  lemma CutDigestPrinted(named: string, digest: Option<string>)
    requires '@' !in named && (digest.Some? ==> '@' !in digest.value)
    ensures CutDigest(named + Suffix('@', digest)) == (named, digest)
  {
    if digest.Some? {
      Regroup(named, '@', digest.value);
      CutDigestAt(named, digest.value);
    } else {
      assert named + "" == named;
    }
  }

  lemma CutTagAt(base: string, tag: string)
    requires GoodTag(tag)
    ensures CutTag(base + [':'] + tag) == (base, Some(tag))
  {
    LastIndexAppend(base, ':', tag);
    SliceAround(base, ':', tag);
  }

  /** A colon inside the registry is not a tag, because a '/' follows it. */
  lemma NoTagToCut(registry: string, repo: string)
    requires ':' !in repo
    ensures CutTag(registry + "/" + repo) == (registry + "/" + repo, None)
  {
    var base := registry + "/" + repo;
    var colon := LastIndex(base, ':');
    if colon >= 0 {
      assert forall k :: |registry| < k < |base| ==> base[k] == repo[k - |registry| - 1];
      assert base[colon + 1..][|registry| - colon - 1] == '/';
    }
  }

  lemma CutTagPrinted(registry: string, repo: string, tag: Option<string>)
    requires ':' !in repo && (tag.Some? ==> GoodTag(tag.value))
    ensures CutTag(registry + "/" + repo + Suffix(':', tag)) == (registry + "/" + repo, tag)
  {
    var base := registry + "/" + repo;
    if tag.Some? {
      Regroup(base, ':', tag.value);
      CutTagAt(base, tag.value);
    } else {
      NoTagToCut(registry, repo);
      assert base + "" == base;
    }
  }

  predicate GoodParts(registry: string, repo: string, tag: Option<string>, digest: Option<string>) {
    && '/' !in registry && '@' !in registry && GoodRepo(repo)
    && (tag.Some? ==> GoodTag(tag.value))
    && (digest.Some? ==> GoodDigest(digest.value))
  }

  lemma NoAt(registry: string, repo: string, tag: Option<string>)
    requires '@' !in registry && '@' !in repo && (tag.Some? ==> '@' !in tag.value)
    ensures '@' !in registry + "/" + repo + Suffix(':', tag)
  {
  }

  lemma SplitFrom(s: string, named: string, base: string, tag: Option<string>, digest: Option<string>)
    requires CutDigest(s) == (named, digest) && CutTag(named) == (base, tag)
    ensures Split(s) == Cut(base, tag, digest)
  {
  }

  lemma SplitPrinted(registry: string, repo: string, tag: Option<string>, digest: Option<string>)
    requires GoodParts(registry, repo, tag, digest)
    ensures Split(Print(registry, repo, tag, digest)) == Cut(registry + "/" + repo, tag, digest)
  {
    var base := registry + "/" + repo;
    var named := base + Suffix(':', tag);
    NoAt(registry, repo, tag);
    CutDigestPrinted(named, digest);
    CutTagPrinted(registry, repo, tag);
    SplitFrom(named + Suffix('@', digest), named, base, tag, digest);
  }

  /** The tag defaults to "latest" when neither tag nor digest is given, and is dropped when a digest
      is. */
  function TagRead(tag: Option<string>, digest: Option<string>): string {
    if digest.Some? then "" else if tag.Some? then tag.value else "latest"
  }

  /** Parsing inverts printing: all four forms come back as their parts. */
  lemma ParsePrinted(registry: string, repo: string, tag: Option<string>, digest: Option<string>)
    requires GoodRegistry(registry) && GoodParts(registry, repo, tag, digest)
    ensures Parse(Print(registry, repo, tag, digest)) ==
              Ok(Parsed(registry, repo, TagRead(tag, digest), if digest.Some? then digest.value else ""))
  {
    RegistryMeaning(registry);
    SplitPrinted(registry, repo, tag, digest);
    IndexAppend(registry, '/', repo);
    SliceAround(registry, '/', repo);
  }

  /** On Docker Hub the first path component is part of the repository. */
  lemma ParsePrintedHub(owner: string, name: string, tag: Option<string>, digest: Option<string>)
    requires !NamesRegistry(owner) && GoodParts(owner, name, tag, digest)
    ensures Parse(Print(owner, name, tag, digest)) ==
              Ok(Parsed("registry-1.docker.io", owner + "/" + name, TagRead(tag, digest),
                        if digest.Some? then digest.value else ""))
  {
    RegistryMeaning(owner);
    SplitPrinted(owner, name, tag, digest);
    IndexAppend(owner, '/', name);
    SliceAround(owner, '/', name);
    assert (owner + "/" + name)[|owner|] == '/';
  }

  /** A bare image name is refused, although Docker Hub would resolve it under `library/`. */
  lemma BareNameRefused(name: string, tag: Option<string>)
    requires '/' !in name && ':' !in name && '@' !in name && (tag.Some? ==> GoodTag(tag.value))
    ensures Parse(name + Suffix(':', tag)) == Err(name)
  {
    var s := name + Suffix(':', tag);
    if tag.Some? {
      Regroup(name, ':', tag.value);
      CutTagAt(name, tag.value);
    } else {
      assert name + "" == name;
    }
    assert CutDigest(s) == (s, None);
    SplitFrom(s, s, name, tag, None);
  }
}
