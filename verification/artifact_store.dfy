/**
 The local artifact store: content-addressed files below a root directory. A path is a sequence of components;
 symbolic links are not modelled. Hashing and case folding are parameters, with what is used of them in `WellFormed`
 and `CollisionFree`.
 */
module ArtifactStore {
  import opened Common
  import opened Text
  import opened WireScan

  type Path = seq<string>

  datatype StorageError = PayloadRequired | EscapesRoot

  datatype Result<+T> = Ok(value: T) | Err(error: StorageError)

  // ---------------------------------------------------------------- names that are safe in a path

  predicate IsSafeChar(c: char) {
    IsLower(c) || IsUpper(c) || IsDigit(c) || c == '.' || c == '_' || c == '-'
  }

  predicate IsDotOrDash(c: char) { c == '.' || c == '-' }

  /** Every run of other characters becomes one dash. */
  function Sanitize(s: string, inRun: bool): string {
    if s == "" then ""
    else if IsSafeChar(s[0]) then [s[0]] + Sanitize(s[1..], false)
    else if inRun then Sanitize(s[1..], true)
    else ['-'] + Sanitize(s[1..], true)
  }

  function SafeSegment(value: string): string {
    var r := Trim(Sanitize(value, false), IsDotOrDash);
    if r == "" then "workspace" else r
  }

  /** What follows the last slash or backslash. */
  function LastPart(value: string): string {
    if value == "" then ""
    else if value[|value| - 1] == '/' || value[|value| - 1] == '\\' then ""
    else LastPart(value[..|value| - 1]) + [value[|value| - 1]]
  }

  function SafeFilename(value: string): string {
    var r := Trim(Sanitize(Strip(LastPart(value)), false), IsDotOrDash);
    if r == "" then "artifact.bin" else if |r| > 180 then r[..180] else r
  }

  /** A name that is one path component and not a reference to this or the parent directory. */
  predicate IsPlainName(s: string) {
    s != "" && '/' !in s && s != "." && s != ".."
  }

  lemma {:induction false} SanitizeIsSafe(s: string, inRun: bool)
    ensures forall i | 0 <= i < |Sanitize(s, inRun)| :: IsSafeChar(Sanitize(s, inRun)[i])
  {
    if s != "" {
      SanitizeIsSafe(s[1..], false);
      SanitizeIsSafe(s[1..], true);
    }
  }

  lemma TrimmedIsPlain(s: string, take: nat)
    requires forall i | 0 <= i < |s| :: IsSafeChar(s[i])
    requires take > 0 && Trim(s, IsDotOrDash) != ""
    ensures var r := Trim(s, IsDotOrDash);
      IsPlainName(r) && (take <= |r| ==> IsPlainName(r[..take]))
  {
    var from := TrimShape(s, IsDotOrDash);
    var r := Trim(s, IsDotOrDash);
    assert forall i | 0 <= i < |r| :: r[i] == s[from + i];
    assert r[0] != '.';
  }

  /** Whatever the input, a sanitised segment or file name is a plain name. */
  lemma SafeNamesArePlain(value: string)
    ensures IsPlainName(SafeSegment(value)) && IsPlainName(SafeFilename(value))
    ensures |SafeFilename(value)| <= 180
  {
    SanitizeIsSafe(value, false);
    SanitizeIsSafe(Strip(LastPart(value)), false);
    var segment, name := Sanitize(value, false), Sanitize(Strip(LastPart(value)), false);
    if Trim(segment, IsDotOrDash) != "" { TrimmedIsPlain(segment, 1); }
    if Trim(name, IsDotOrDash) != "" { TrimmedIsPlain(name, 180); }
  }

  // ---------------------------------------------------------------- paths

  /** Follows a relative path from `base`: `..` goes up, `.` and empty components stay. */
  function Resolve(base: Path, parts: seq<string>): Path
    decreases parts
  {
    if parts == [] then base
    else
      var head := parts[0];
      Resolve(if head == "" || head == "." then base
              else if head == ".." then (if base == [] then base else base[..|base| - 1])
              else base + [head], parts[1..])
  }

  lemma {:induction false} ResolvePlain(base: Path, parts: seq<string>)
    requires forall i | 0 <= i < |parts| :: IsPlainName(parts[i])
    ensures Resolve(base, parts) == base + parts
    decreases parts
  {
    if parts != [] {
      ResolvePlain(base + [parts[0]], parts[1..]);
      assert parts == [parts[0]] + parts[1..];
    }
  }

  /** The root itself or something below it. */
  predicate Inside(root: Path, target: Path) { root <= target }

  function Join(parts: seq<string>): string {
    if parts == [] then "" else if |parts| == 1 then parts[0] else parts[0] + "/" + Join(parts[1..])
  }

  function SplitPath(s: string): seq<string>
    decreases |s|
  {
    var n := FirstSlash(s);
    if n == |s| then [s] else [s[..n]] + SplitPath(s[n + 1..])
  }

  function FirstSlash(s: string): (n: nat)
    ensures n <= |s| && (n < |s| ==> s[n] == '/')
    ensures forall i | 0 <= i < n :: s[i] != '/'
  {
    if s == "" || s[0] == '/' then 0 else 1 + FirstSlash(s[1..])
  }

  /** Where a path read from a URI leads: an absolute path replaces the root. */
  function Target(root: Path, relative: string): Path {
    Resolve(if relative != "" && relative[0] == '/' then [] else root, SplitPath(relative))
  }

  lemma FirstSlashIs(part: string, rest: string)
    requires '/' !in part
    ensures FirstSlash(part) == |part|
    ensures FirstSlash(part + "/" + rest) == |part|
  {
    var s := part + "/" + rest;
    assert s[|part|] == '/';
    assert forall i | 0 <= i < |part| :: s[i] == part[i];
  }

  lemma {:induction false} SplitJoin(parts: seq<string>)
    requires parts != [] && forall i | 0 <= i < |parts| :: '/' !in parts[i]
    ensures SplitPath(Join(parts)) == parts
  {
    if |parts| == 1 {
      FirstSlashIs(parts[0], "");
    } else {
      FirstSlashIs(parts[0], Join(parts[1..]));
      SplitJoin(parts[1..]);
      JoinShape(parts[0], Join(parts[1..]));
      assert parts == [parts[0]] + parts[1..];
    }
  }

  lemma JoinShape(part: string, rest: string)
    ensures (part + "/" + rest)[..|part|] == part && (part + "/" + rest)[|part| + 1..] == rest
  {
  }

  // ---------------------------------------------------------------- identities

  datatype Hashing = Hashing(digest: string -> string, contentHash: seq<Byte> -> string, fold: string -> string)

  const HASH_LENGTH: nat := 64

  /** Content hashes have a fixed length and no white space at their ends, and ids are plain names. */
  ghost predicate WellFormed(h: Hashing) {
    && (forall s :: |h.contentHash(s)| == HASH_LENGTH && Strip(h.contentHash(s)) == h.contentHash(s))
    && (forall s :: IsPlainName("artifact-" + h.digest(s)))
  }

  datatype Request = Request(workspaceId: string, projectId: string, evidenceId: Option<string>,
                             artifactType: string, filename: string, payload: Option<seq<Byte>>)

  function PayloadOf(r: Request): seq<Byte> { if r.payload.Some? then r.payload.value else [] }

  /** The fields of an artifact other than its content, stripped and joined as the identity wants them. */
  function FieldText(h: Hashing, r: Request): string {
    Strip(r.workspaceId) + "|" + Strip(r.projectId) + "|" + Strip(if r.evidenceId.Some? then r.evidenceId.value else "")
    + "|" + Strip(r.artifactType) + "|" + Strip(h.fold(SafeFilename(r.filename))) + "|"
  }

  /** The text whose digest identifies an artifact. */
  function IdentityText(h: Hashing, r: Request): string {
    FieldText(h, r) + Strip(h.contentHash(PayloadOf(r)))
  }

  function ArtifactId(h: Hashing, r: Request): string { "artifact-" + h.digest(IdentityText(h, r)) }

  /** Neither the digest nor the content hash confuses these two requests. */
  ghost predicate NoCollision(h: Hashing, r: Request, q: Request) {
    && (h.digest(IdentityText(h, r)) == h.digest(IdentityText(h, q)) ==> IdentityText(h, r) == IdentityText(h, q))
    && (h.contentHash(PayloadOf(r)) == h.contentHash(PayloadOf(q)) ==> PayloadOf(r) == PayloadOf(q))
  }

  ghost predicate CollisionFree(h: Hashing, requests: set<Request>) {
    forall r, q | r in requests && q in requests :: NoCollision(h, r, q)
  }

  lemma SameTail<T>(a: seq<T>, tail: seq<T>, b: seq<T>, tail': seq<T>)
    requires |tail| == |tail'| && a + tail == b + tail'
    ensures a == b && tail == tail'
  {
    TakeAppend(a, tail);
    TakeAppend(b, tail');
  }

  /**
   Artifacts with the same id have the same content, even though different fields can be joined to the same text:
   the content hash comes last and has a fixed length.
   */
  lemma SameIdSamePayload(h: Hashing, r: Request, q: Request)
    requires WellFormed(h) && NoCollision(h, r, q) && ArtifactId(h, r) == ArtifactId(h, q)
    ensures PayloadOf(r) == PayloadOf(q)
  {
    SameTail("artifact-", h.digest(IdentityText(h, r)), "artifact-", h.digest(IdentityText(h, q))) by {
      SameLength("artifact-", h.digest(IdentityText(h, r)), h.digest(IdentityText(h, q)));
    }
    SameTail(FieldText(h, r), h.contentHash(PayloadOf(r)), FieldText(h, q), h.contentHash(PayloadOf(q)));
  }

  lemma SameLength(prefix: string, a: string, b: string)
    requires prefix + a == prefix + b
    ensures |a| == |b|
  {
    assert |prefix + a| == |prefix| + |a|;
  }

  // ---------------------------------------------------------------- the store

  function RelativePath(h: Hashing, r: Request): Path {
    [SafeSegment(r.workspaceId), ArtifactId(h, r), SafeFilename(r.filename)]
  }

  lemma RelativePathIsPlain(h: Hashing, r: Request)
    requires WellFormed(h)
    ensures forall i | 0 <= i < 3 :: IsPlainName(RelativePath(h, r)[i])
  {
    SafeNamesArePlain(r.workspaceId);
    SafeNamesArePlain(r.filename);
  }

  const LOCAL := "local://"

  datatype Record = Record(id: string, filename: string, uri: string, byteSize: nat, contentHash: string)

  function RecordOf(h: Hashing, r: Request): Record {
    Record(ArtifactId(h, r), SafeFilename(r.filename), LOCAL + Join(RelativePath(h, r)), |PayloadOf(r)|,
           h.contentHash(PayloadOf(r)))
  }

  /** The first bytes of a file, and whether there are more. */
  function Head(payload: seq<Byte>, maxBytes: int): (seq<Byte>, bool) {
    var limit := if maxBytes < 1 then 1 else maxBytes;
    if |payload| > limit then (payload[..limit], true) else (payload, false)
  }

  function PathOf(root: Path, h: Hashing, r: Request): Path { root + RelativePath(h, r) }

  /** Where each request's artifact goes. */
  function Slot(root: Path, h: Hashing): Request -> Path { r => PathOf(root, h, r) }

  /** The files are exactly those of the requests in `stored`, each with the content it was stored with. */
  ghost predicate Stores(slot: Request -> Path, files: map<Path, seq<Byte>>, stored: set<Request>) {
    && (forall r | r in stored :: r.payload.Some? && slot(r) in files && files[slot(r)] == PayloadOf(r))
    && (forall p | p in files :: exists r :: r in stored && p == slot(r))
  }

  ghost predicate Holds(root: Path, h: Hashing, files: map<Path, seq<Byte>>, stored: set<Request>) {
    WellFormed(h) && CollisionFree(h, stored) && Stores(Slot(root, h), files, stored)
  }

  /** Requests that share a slot have the same payload. */
  ghost predicate NoClash(slot: Request -> Path, stored: set<Request>, r: Request) {
    forall q | q in stored && slot(q) == slot(r) :: PayloadOf(q) == PayloadOf(r)
  }

  lemma SamePathSamePayload(root: Path, h: Hashing, r: Request, q: Request)
    requires WellFormed(h) && NoCollision(h, r, q) && PathOf(root, h, r) == PathOf(root, h, q)
    ensures PayloadOf(r) == PayloadOf(q)
  {
    SamePath(root, RelativePath(h, r), RelativePath(h, q));
    assert RelativePath(h, r)[1] == RelativePath(h, q)[1];
    SameIdSamePayload(h, r, q);
  }

  lemma SamePath(root: Path, a: Path, b: Path)
    requires root + a == root + b
    ensures a == b
  {
    TakeAppend(root, a);
    TakeAppend(root, b);
  }

  lemma SlotsDoNotClash(root: Path, h: Hashing, stored: set<Request>, r: Request)
    requires WellFormed(h) && CollisionFree(h, stored + {r})
    ensures NoClash(Slot(root, h), stored, r)
  {
    var slot := Slot(root, h);
    forall q | q in stored && slot(q) == slot(r)
      ensures PayloadOf(q) == PayloadOf(r)
    {
      assert NoCollision(h, q, r);
      SamePathSamePayload(root, h, q, r);
    }
  }

  /** Writing one more artifact keeps every file that is there. */
  lemma WriteKeeps(slot: Request -> Path, files: map<Path, seq<Byte>>, stored: set<Request>, r: Request)
    requires Stores(slot, files, stored) && NoClash(slot, stored, r) && r.payload.Some?
    ensures Stores(slot, files[slot(r) := PayloadOf(r)], stored + {r})
    ensures slot(r) in files ==> files[slot(r)] == PayloadOf(r)
  {
    var files' := files[slot(r) := PayloadOf(r)];
    forall p | p in files'
      ensures exists q :: q in stored + {r} && p == slot(q)
    {
      if p in files {
        var q :| q in stored && p == slot(q);
        assert q in stored + {r};
      } else {
        assert r in stored + {r};
      }
    }
  }

  /** What reading through a URI gives. */
  function ReadResult(root: Path, files: map<Path, seq<Byte>>, uri: string, maxBytes: int)
    : Result<Option<(seq<Byte>, bool)>>
  {
    if !(|LOCAL| <= |uri| && uri[..|LOCAL|] == LOCAL) then Ok(None) else
      var target := Target(root, uri[|LOCAL|..]);
      if !Inside(root, target) then Err(EscapesRoot)
      else if target !in files then Ok(None)
      else Ok(Some(Head(files[target], maxBytes)))
  }

  /** The URI of a record leads to the path its artifact was stored under. */
  lemma UriLeadsToPath(root: Path, h: Hashing, r: Request)
    requires WellFormed(h)
    ensures var uri := RecordOf(h, r).uri;
      && |LOCAL| <= |uri| && uri[..|LOCAL|] == LOCAL
      && Target(root, uri[|LOCAL|..]) == PathOf(root, h, r)
  {
    var relative := RelativePath(h, r);
    RelativePathIsPlain(h, r);
    SplitJoin(relative);
    ResolvePlain(root, relative);
    TakeAppend(LOCAL, Join(relative));
    assert Join(relative)[0] == relative[0][0];
  }

  /** A record of anything stored reads back the first bytes it was stored with. */
  lemma StoredReadsBack(root: Path, h: Hashing, files: map<Path, seq<Byte>>, stored: set<Request>,
                        r: Request, maxBytes: int)
    requires Holds(root, h, files, stored) && r in stored
    ensures ReadResult(root, files, RecordOf(h, r).uri, maxBytes) == Ok(Some(Head(PayloadOf(r), maxBytes)))
  {
    UriLeadsToPath(root, h, r);
    assert Slot(root, h)(r) == PathOf(root, h, r);
    InsideRoot(root, RelativePath(h, r));
  }

  lemma InsideRoot(root: Path, relative: Path)
    ensures Inside(root, root + relative)
  {
  }

  /** A URI with an absolute path is refused unless the path happens to lead below the root. */
  lemma AbsoluteUrisAreRefused(root: Path, files: map<Path, seq<Byte>>, path: string, maxBytes: int)
    requires path != "" && path[0] == '/'
    ensures ReadResult(root, files, LOCAL + path, maxBytes) == Err(EscapesRoot)
       <==> !(root <= Resolve([], SplitPath(path)))
  {
    TakeAppend(LOCAL, path);
  }

  /** Whatever the URI, a successful read returns the content of something that was stored. */
  lemma ReadsOnlyStored(root: Path, h: Hashing, files: map<Path, seq<Byte>>, stored: set<Request>,
                        uri: string, maxBytes: int)
    requires Holds(root, h, files, stored)
    requires ReadResult(root, files, uri, maxBytes).Ok? && ReadResult(root, files, uri, maxBytes).value.Some?
    ensures exists r ::
      r in stored && ReadResult(root, files, uri, maxBytes).value.value == Head(PayloadOf(r), maxBytes)
  {
    var target := Target(root, uri[|LOCAL|..]);
    var slot := Slot(root, h);
    var r :| r in stored && target == slot(r);
  }

  /** Where a stored payload goes is inside the root, and putting it there keeps everything else. */
  lemma StoreStep(root: Path, h: Hashing, files: map<Path, seq<Byte>>, stored: set<Request>, r: Request)
    requires Holds(root, h, files, stored) && CollisionFree(h, stored + {r}) && r.payload.Some?
    ensures Resolve(root, RelativePath(h, r)) == PathOf(root, h, r) && Inside(root, PathOf(root, h, r))
    ensures Holds(root, h, files[PathOf(root, h, r) := PayloadOf(r)], stored + {r})
    ensures PathOf(root, h, r) in files ==> files[PathOf(root, h, r)] == PayloadOf(r)
  {
    RelativePathIsPlain(h, r);
    ResolvePlain(root, RelativePath(h, r));
    InsideRoot(root, RelativePath(h, r));
    SlotsDoNotClash(root, h, stored, r);
    WriteKeeps(Slot(root, h), files, stored, r);
    assert Slot(root, h)(r) == PathOf(root, h, r);
  }

  lemma HeadOfPrefix(payload: seq<Byte>, limit: nat)
    ensures |payload| > limit + 1 ==> payload[..limit + 1][..limit] == payload[..limit]
  {
  }

  class LocalArtifactStorage {
    const root: Path
    const h: Hashing
    var files: map<Path, seq<Byte>>
    ghost var stored: set<Request>  // every request stored so far

    ghost predicate Valid()
      reads this
    {
      Holds(root, h, files, stored)
    }

    constructor (root: Path, h: Hashing)
      requires WellFormed(h)
      ensures Valid() && stored == {} && this.root == root && this.h == h
    {
      this.root, this.h, files, stored := root, h, map[], {};
    }

    /**
     Stores a payload. It fails exactly when the request has none: the containment check never fires, because names
     are sanitised. It never changes what is already stored.
     */
    method Store(r: Request) returns (result: Result<Record>)
      requires Valid() && CollisionFree(h, stored + {r})
      modifies this
      ensures Valid()
      ensures r.payload.None? ==> result == Err(PayloadRequired) && files == old(files) && stored == old(stored)
      ensures r.payload.Some? ==> result == Ok(RecordOf(h, r)) && stored == old(stored) + {r}
      ensures r.payload.Some? ==> files == old(files)[PathOf(root, h, r) := r.payload.value]
      ensures forall p | p in old(files) :: p in files && files[p] == old(files[p])
    {
      if r.payload.None? {
        return Err(PayloadRequired);
      }
      result := WritePayload(r);
    }

    method WritePayload(r: Request) returns (result: Result<Record>)
      requires Valid() && CollisionFree(h, stored + {r}) && r.payload.Some?
      modifies this
      ensures Valid() && result == Ok(RecordOf(h, r)) && stored == old(stored) + {r}
      ensures files == old(files)[PathOf(root, h, r) := PayloadOf(r)]
      ensures PathOf(root, h, r) in old(files) ==> old(files)[PathOf(root, h, r)] == PayloadOf(r)
    {
      hide Resolve, RelativePath, Inside, PathOf, Holds, CollisionFree, RecordOf;
      var target := Resolve(root, RelativePath(h, r));
      StoreStep(root, h, files, stored, r);
      if !Inside(root, target) {
        return Err(EscapesRoot);
      }
      files, stored := files[target := r.payload.value], stored + {r};
      return Ok(RecordOf(h, r));
    }

    /** Reads at most `maxBytes` bytes of the artifact a URI points to. */
    method ReadBytes(uri: string, maxBytes: int) returns (result: Result<Option<(seq<Byte>, bool)>>)
      ensures result == ReadResult(root, files, uri, maxBytes)
    {
      if !(|LOCAL| <= |uri| && uri[..|LOCAL|] == LOCAL) {
        return Ok(None);
      }
      var target := Target(root, uri[|LOCAL|..]);
      if !Inside(root, target) {
        return Err(EscapesRoot);
      }
      if target !in files {
        return Ok(None);
      }
      var limit := if maxBytes < 1 then 1 else maxBytes;
      var file := files[target];
      var payload := if |file| > limit + 1 then file[..limit + 1] else file;
      HeadOfPrefix(file, limit);
      var truncated := |payload| > limit;
      if truncated {
        payload := payload[..limit];
      }
      return Ok(Some((payload, truncated)));
    }
  }

  lemma SubsetIsCollisionFree(h: Hashing, all: set<Request>, some: set<Request>)
    requires CollisionFree(h, all) && some <= all
    ensures CollisionFree(h, some)
  {
  }

  /** Storing an artifact, then any others, then reading it: the read returns what the first store was given. */
  method StoreThenRead(storage: LocalArtifactStorage, r: Request, later: seq<Request>, maxBytes: int)
    returns (result: Result<Option<(seq<Byte>, bool)>>)
    requires storage.Valid() && r.payload.Some?
    requires CollisionFree(storage.h, storage.stored + {r} + set q | q in later)
    modifies storage
    ensures result == Ok(Some(Head(r.payload.value, maxBytes)))
  {
    ghost var all := storage.stored + {r} + set q | q in later;
    SubsetIsCollisionFree(storage.h, all, storage.stored + {r});
    var record := storage.Store(r);
    for i := 0 to |later|
      invariant storage.Valid() && r in storage.stored && storage.stored <= all
    {
      SubsetIsCollisionFree(storage.h, all, storage.stored + {later[i]});
      var ignored := storage.Store(later[i]);
    }
    StoredReadsBack(storage.root, storage.h, storage.files, storage.stored, r, maxBytes);
    result := storage.ReadBytes(record.value.uri, maxBytes);
  }

  // ---------------------------------------------------------------- what sanitising and resolving do

  predicate AllSafe(s: string) { forall i | 0 <= i < |s| :: IsSafeChar(s[i]) }

  predicate NoneSafe(s: string) { forall i | 0 <= i < |s| :: !IsSafeChar(s[i]) }

  /** Safe text stays as it is, */
  lemma {:induction false} SafeTextStays(s: string, inRun: bool)
    requires AllSafe(s)
    ensures Sanitize(s, inRun) == s
  {
    if s != "" {
      SafeTextStays(s[1..], false);
      assert s == [s[0]] + s[1..];
    }
  }

  /** a run of other characters becomes one dash, and none when it goes on from an earlier one, */
  lemma {:induction false} RunBecomesDash(s: string, inRun: bool)
    requires NoneSafe(s)
    ensures Sanitize(s, inRun) == if s == "" || inRun then "" else "-"
  {
    if s != "" { RunBecomesDash(s[1..], true); }
  }

  predicate EndsInRun(s: string, inRun: bool) { if s == "" then inRun else !IsSafeChar(s[|s| - 1]) }

  /** and what stands side by side is sanitised side by side. */
  lemma {:induction false} SanitizeJoins(a: string, b: string, inRun: bool)
    ensures Sanitize(a + b, inRun) == Sanitize(a, inRun) + Sanitize(b, EndsInRun(a, inRun))
  {
    if a == "" {
      assert a + b == b;
    } else {
      hide IsSafeChar, Sanitize;
      SanitizeFirst(a, inRun);
      SanitizeFirst(a + b, inRun);
      SanitizeJoins(a[1..], b, !IsSafeChar(a[0]));
      assert (a + b)[0] == a[0] && (a + b)[1..] == a[1..] + b;
      AppendAssociates(FirstOf(a, inRun), Sanitize(a[1..], !IsSafeChar(a[0])),
                       Sanitize(b, EndsInRun(a, inRun)));
    }
  }

  /** What the first character becomes. */
  function FirstOf(s: string, inRun: bool): string
    requires s != ""
  {
    if IsSafeChar(s[0]) then [s[0]] else if inRun then "" else "-"
  }

  lemma SanitizeFirst(s: string, inRun: bool)
    requires s != ""
    ensures Sanitize(s, inRun) == FirstOf(s, inRun) + Sanitize(s[1..], !IsSafeChar(s[0]))
  {
  }

  /** The last part has no separator and is all that follows the last one. */
  lemma {:induction false} LastPartIs(value: string)
    ensures '/' !in LastPart(value) && '\\' !in LastPart(value)
    ensures |LastPart(value)| <= |value|
    ensures var n := |value| - |LastPart(value)|;
      value[n..] == LastPart(value) && (n > 0 ==> value[n - 1] == '/' || value[n - 1] == '\\')
  {
    if value != "" { LastPartIs(value[..|value| - 1]); }
  }

  /** A name that is safe already, and neither begins nor ends with a dot or a dash, is kept. */
  lemma PlainNamesAreKept(name: string)
    requires AllSafe(name) && 0 < |name| <= 180
    requires !IsDotOrDash(name[0]) && !IsDotOrDash(name[|name| - 1])
    ensures SafeSegment(name) == name && SafeFilename(name) == name
  {
    SafeTextStays(name, false);
    TrimKeeps(name, IsDotOrDash);
    TrimKeeps(name, IsSpace);
    NoSeparator(name);
  }

  lemma {:induction false} NoSeparator(name: string)
    requires AllSafe(name)
    ensures LastPart(name) == name
  {
    if name != "" {
      NoSeparator(name[..|name| - 1]);
      SplitLast(name);
    }
  }

  lemma {:induction false} ResolveJoins(base: Path, a: seq<string>, b: seq<string>)
    ensures Resolve(base, a + b) == Resolve(Resolve(base, a), b)
    decreases a
  {
    if a == [] {
      assert a + b == b;
    } else {
      var head := a[0];
      var next := if head == "" || head == "." then base
                  else if head == ".." then (if base == [] then base else base[..|base| - 1])
                  else base + [head];
      ResolveJoins(next, a[1..], b);
      assert (a + b)[0] == head && (a + b)[1..] == a[1..] + b;
    }
  }

  /** Going up takes back one component, and staying takes back none. */
  lemma ResolveSteps(base: Path, name: string)
    requires IsPlainName(name)
    ensures Resolve(base, [name]) == base + [name] && Resolve(base + [name], [".."]) == base
    ensures Resolve(base, ["."]) == Resolve(base, [""]) == base && Resolve([], [".."]) == []
  {
    assert (base + [name])[..|base|] == base;
    assert [name][1..] == [] && [".."][1..] == [] && ["."][1..] == [] && [""][1..] == [];
  }

  lemma OtherLeaf(base: Path, name: string, other: string)
    ensures Inside(base + [name], base + [other]) <==> name == other
  {
    assert (base + [name])[|base|] == name && (base + [other])[|base|] == other;
  }

  /** A URI that leaves the root for a neighbour of it is refused. */
  lemma NeighboursAreRefused(root: Path, files: map<Path, seq<Byte>>, name: string, maxBytes: int)
    requires root != [] && IsPlainName(name) && name != root[|root| - 1]
    ensures ReadResult(root, files, LOCAL + Join(["..", name]), maxBytes) == Err(EscapesRoot)
  {
    var parts, base := ["..", name], root[..|root| - 1];
    SplitJoin(parts);
    TakeAppend(LOCAL, Join(parts));
    assert parts[1..] == [name] && [name][1..] == [];
    assert Resolve(root, parts) == Resolve(base, [name]) == base + [name];
    assert Join(parts)[0] == '.';
    OtherLeaf(base, root[|root| - 1], name);
    assert root == base + [root[|root| - 1]];
  }

  // ---------------------------------------------------------------- what an identity keeps apart

  function EvidenceText(r: Request): string { Strip(if r.evidenceId.Some? then r.evidenceId.value else "") }

  /** No field of the request has a bar in it, as the identity takes it. */
  ghost predicate HasBarFreeFields(h: Hashing, r: Request) {
    && BarFree(Strip(r.workspaceId)) && BarFree(Strip(r.projectId)) && BarFree(EvidenceText(r))
    && BarFree(Strip(r.artifactType)) && BarFree(Strip(h.fold(SafeFilename(r.filename))))
  }

  /** Artifacts with the same id agree in every field of the identity, as long as no field has a bar in it. */
  lemma SameIdSameFields(h: Hashing, r: Request, q: Request)
    requires WellFormed(h) && NoCollision(h, r, q) && ArtifactId(h, r) == ArtifactId(h, q)
    requires HasBarFreeFields(h, r) && HasBarFreeFields(h, q)
    ensures Strip(r.workspaceId) == Strip(q.workspaceId) && Strip(r.projectId) == Strip(q.projectId)
    ensures EvidenceText(r) == EvidenceText(q) && Strip(r.artifactType) == Strip(q.artifactType)
    ensures Strip(h.fold(SafeFilename(r.filename))) == Strip(h.fold(SafeFilename(q.filename)))
  {
    hide BarFree, EvidenceText;
    SameTail("artifact-", h.digest(IdentityText(h, r)), "artifact-", h.digest(IdentityText(h, q))) by {
      SameLength("artifact-", h.digest(IdentityText(h, r)), h.digest(IdentityText(h, q)));
    }
    SameTail(FieldText(h, r), h.contentHash(PayloadOf(r)), FieldText(h, q), h.contentHash(PayloadOf(q)));
    FieldsInOrder(h, r);
    FieldsInOrder(h, q);
    AllPartsAgree(Strip(r.workspaceId), Strip(r.projectId), EvidenceText(r), Strip(r.artifactType),
                  Strip(h.fold(SafeFilename(r.filename))),
                  Strip(q.workspaceId), Strip(q.projectId), EvidenceText(q), Strip(q.artifactType),
                  Strip(h.fold(SafeFilename(q.filename))));
  }

  function Barred(a: string, b: string, c: string, d: string, e: string): string {
    a + "|" + (b + "|" + (c + "|" + (d + "|" + (e + "|" + ""))))
  }

  lemma AllPartsAgree(a: string, b: string, c: string, d: string, e: string,
                      a': string, b': string, c': string, d': string, e': string)
    requires BarFree(a) && BarFree(b) && BarFree(c) && BarFree(d) && BarFree(e)
    requires BarFree(a') && BarFree(b') && BarFree(c') && BarFree(d') && BarFree(e')
    requires Barred(a, b, c, d, e) == Barred(a', b', c', d', e')
    ensures a == a' && b == b' && c == c' && d == d' && e == e'
  {
    hide BarFree;
    var last, last' := e + "|" + "", e' + "|" + "";
    var fourth, fourth' := d + "|" + last, d' + "|" + last';
    var third, third' := c + "|" + fourth, c' + "|" + fourth';
    FirstPart(a, b + "|" + third, a', b' + "|" + third');
    FirstPart(b, third, b', third');
    FirstPart(c, fourth, c', fourth');
    FirstPart(d, last, d', last');
    FirstPart(e, "", e', "");
  }

  lemma FieldsInOrder(h: Hashing, r: Request)
    ensures FieldText(h, r) == Barred(Strip(r.workspaceId), Strip(r.projectId), EvidenceText(r),
                                      Strip(r.artifactType), Strip(h.fold(SafeFilename(r.filename))))
  {
    hide Strip;
  }

  /** What a read returns: as many bytes as asked for, at least one, from the front, and whether there are more. */
  lemma HeadIs(payload: seq<Byte>, maxBytes: int)
    ensures var (bytes, truncated) := Head(payload, maxBytes);
      && bytes <= payload
      && (truncated ==> |bytes| < |payload| && |bytes| == (if maxBytes >= 1 then maxBytes else 1))
      && (!truncated ==> bytes == payload && (|payload| <= maxBytes || |payload| <= 1))
  {
  }

  /** A record names what its path is made of, and says how long the content is. */
  lemma RecordMatchesPath(root: Path, h: Hashing, r: Request)
    ensures var record, path := RecordOf(h, r), PathOf(root, h, r);
      && path == root + [SafeSegment(r.workspaceId), record.id, record.filename]
      && record.byteSize == |PayloadOf(r)| && record.contentHash == h.contentHash(PayloadOf(r))
  {
  }
}
