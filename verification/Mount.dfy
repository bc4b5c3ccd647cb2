/** MNT (RFC 1813, section 5.2.1): matching the export, trimming slashes, walking
    the rest of the path. */
module Mount {
  import opened Wrappers
  import opened Xdr
  import opened XdrRpc
  import opened XdrNfs
  import opened NfsReply

  const SLASH: byte := 0x2f

  // ---- slashes -----------------------------------------------------------

  function TrimStart(path: bytes): (r: bytes)
    ensures r == [] || r[0] != SLASH
  {
    if path != [] && path[0] == SLASH then TrimStart(path[1..]) else path
  }

  function TrimEnd(path: bytes): (r: bytes)
    ensures r == [] || r[|r| - 1] != SLASH
    decreases |path|
  {
    if path != [] && path[|path| - 1] == SLASH then TrimEnd(path[..|path| - 1]) else path
  }

  method TrimStartSlashes(path: bytes) returns (r: bytes)
    ensures r == TrimStart(path)
  {
    r := path;
    while r != [] && r[0] == SLASH
      invariant TrimStart(r) == TrimStart(path)
      decreases |r|
    {
      r := r[1..];
    }
  }

  method TrimEndSlashes(path: bytes) returns (r: bytes)
    ensures r == TrimEnd(path)
  {
    r := path;
    while r != [] && r[|r| - 1] == SLASH
      invariant TrimEnd(r) == TrimEnd(path)
      decreases |r|
    {
      r := r[..|r| - 1];
    }
  }

  // ---- components --------------------------------------------------------

  /** The segments between slashes, empty ones included. */
  function Split(path: bytes): (r: seq<bytes>)
    ensures r != []
  {
    if path == [] then [[]]
    else
      var rest := Split(path[1..]);
      if path[0] == SLASH then [[]] + rest else [[path[0]] + rest[0]] + rest[1..]
  }

  function NonEmpty(segments: seq<bytes>): seq<bytes> {
    if segments == [] then []
    else (if segments[0] == [] then [] else [segments[0]]) + NonEmpty(segments[1..])
  }

  function Components(path: bytes): seq<bytes> {
    NonEmpty(Split(path))
  }

  lemma {:induction false} SplitAtSlash(a: bytes, b: bytes)
    ensures Split(a + [SLASH] + b) == Split(a) + Split(b)
  {
    if a == [] {
      assert ([] + [SLASH] + b)[1..] == b;
    } else {
      assert (a + [SLASH] + b)[1..] == a[1..] + [SLASH] + b;
      SplitAtSlash(a[1..], b);
    }
  }

  lemma {:induction false} NonEmptyAppend(x: seq<bytes>, y: seq<bytes>)
    ensures NonEmpty(x + y) == NonEmpty(x) + NonEmpty(y)
  {
    if x == [] {
      assert x + y == y;
    } else {
      assert (x + y)[1..] == x[1..] + y;
      NonEmptyAppend(x[1..], y);
    }
  }

  lemma NonEmptyOne(segment: bytes)
    ensures NonEmpty([segment]) == if segment == [] then [] else [segment]
  {
    assert NonEmpty([segment][1..]) == [];
  }

  lemma NoComponents()
    ensures Components([]) == []
  {
    NonEmptyOne([]);
  }

  lemma ComponentsAtSlash(a: bytes, b: bytes)
    ensures Components(a + [SLASH] + b) == Components(a) + Components(b)
  {
    SplitAtSlash(a, b);
    NonEmptyAppend(Split(a), Split(b));
  }

  lemma LeadingSlash(path: bytes)
    ensures Components([SLASH] + path) == Components(path)
  {
    ComponentsAtSlash([], path);
    assert [] + [SLASH] + path == [SLASH] + path;
    NoComponents();
  }

  lemma TrailingSlash(path: bytes)
    ensures Components(path + [SLASH]) == Components(path)
  {
    ComponentsAtSlash(path, []);
    assert path + [SLASH] + [] == path + [SLASH];
    NoComponents();
  }

  lemma {:induction false} TrimStartComponents(path: bytes)
    ensures Components(TrimStart(path)) == Components(path)
  {
    if path != [] && path[0] == SLASH {
      assert [SLASH] + path[1..] == path;
      LeadingSlash(path[1..]);
      TrimStartComponents(path[1..]);
    }
  }

  lemma {:induction false} TrimEndComponents(path: bytes)
    ensures Components(TrimEnd(path)) == Components(path)
    decreases |path|
  {
    if path != [] && path[|path| - 1] == SLASH {
      var init := path[..|path| - 1];
      assert init + [SLASH] == path;
      TrailingSlash(init);
      TrimEndComponents(init);
    }
  }

  predicate IsComponent(c: bytes) {
    c != [] && SLASH !in c
  }

  lemma {:induction false} SplitPlain(c: bytes)
    requires SLASH !in c
    ensures Split(c) == [c]
  {
    if c != [] {
      SplitPlain(c[1..]);
      assert [c[0]] + c[1..] == c;
    }
  }

  lemma ComponentFirst(c: bytes, rest: bytes)
    requires IsComponent(c) && (rest == [] || rest[0] == SLASH)
    ensures Components([SLASH] + c + rest) == [c] + Components(rest)
  {
    assert [SLASH] + c + rest == [SLASH] + (c + rest);
    LeadingSlash(c + rest);
    SplitPlain(c);
    NonEmptyOne(c);
    if rest == [] {
      assert c + rest == c;
      NoComponents();
    } else {
      assert rest == [SLASH] + rest[1..] && c + rest == c + [SLASH] + rest[1..];
      LeadingSlash(rest[1..]);
      ComponentsAtSlash(c, rest[1..]);
    }
  }

  function Slashes(n: nat): bytes {
    seq(n, _ => SLASH)
  }

  lemma {:induction false} SlashesBefore(n: nat, path: bytes)
    ensures Components(Slashes(n) + path) == Components(path)
  {
    var all := Slashes(n) + path;
    if n == 0 {
      assert all == path;
    } else {
      assert all == [SLASH] + (Slashes(n - 1) + path);
      LeadingSlash(Slashes(n - 1) + path);
      SlashesBefore(n - 1, path);
    }
  }

  lemma {:induction false} SlashesAfter(path: bytes, n: nat)
    ensures Components(path + Slashes(n)) == Components(path)
  {
    var all := path + Slashes(n);
    if n == 0 {
      assert all == path;
    } else {
      assert all == (path + Slashes(n - 1)) + [SLASH];
      TrailingSlash(path + Slashes(n - 1));
      SlashesAfter(path, n - 1);
    }
  }

  /** A way to write components as a path: before each at least one slash. */
  function Spelled(components: seq<bytes>, extra: seq<nat>): bytes
    requires |extra| == |components|
  {
    if components == [] then []
    else [SLASH] + Slashes(extra[0]) + components[0] + Spelled(components[1..], extra[1..])
  }

  /** Splitting recovers exactly the components a path was made of, however many
      slashes there are between them. */
  lemma {:induction false} SpelledComponents(components: seq<bytes>, extra: seq<nat>)
    requires |extra| == |components| && forall i | 0 <= i < |components| :: IsComponent(components[i])
    ensures Components(Spelled(components, extra)) == components
  {
    if components == [] {
      NoComponents();
    } else {
      var c := components[0];
      var rest := Spelled(components[1..], extra[1..]);
      SpelledComponents(components[1..], extra[1..]);
      ComponentFirst(c, rest);
      assert [SLASH] + Slashes(extra[0]) == Slashes(extra[0]) + [SLASH];
      assert [SLASH] + Slashes(extra[0]) + c + rest == Slashes(extra[0]) + ([SLASH] + c + rest);
      SlashesBefore(extra[0], [SLASH] + c + rest);
    }
  }

  // ---- the walk ----------------------------------------------------------

  type Lookup = (u64, bytes) -> Result<u64, Stat>

  /** The fold of lookup over a list of names. */
  function Walk(lookup: Lookup, dir: u64, names: seq<bytes>): Result<u64, Stat>
    decreases |names|
  {
    if names == [] then Ok(dir)
    else
      var next := lookup(dir, names[0]);
      if next.Error? then next else Walk(lookup, next.value, names[1..])
  }

  method PathToId(lookup: Lookup, root: u64, path: bytes) returns (r: Result<u64, Stat>)
    ensures r == Walk(lookup, root, Components(path))
  {
    var splits := Split(path);
    var fid := root;
    var i := 0;
    while i < |splits|
      invariant 0 <= i <= |splits|
      invariant Walk(lookup, root, Components(path)) == Walk(lookup, fid, NonEmpty(splits[i..]))
    {
      assert splits[i..][1..] == splits[i + 1..] && splits[i..][0] == splits[i];
      ghost var left := NonEmpty(splits[i + 1..]);
      assert NonEmpty(splits[i..]) == if splits[i] == [] then left else [splits[i]] + left;
      if splits[i] != [] {
        assert ([splits[i]] + left)[1..] == left;
        var next := lookup(fid, splits[i]);
        if next.Error? {
          return next;
        }
        fid := next.value;
      }
      i := i + 1;
    }
    return Ok(fid);
  }

  // ---- the export --------------------------------------------------------

  /** The export name as the listener normalises it. */
  function ExportOf(name: bytes): bytes {
    [SLASH] + TrimStart(TrimEnd(name))
  }

  lemma {:induction false} TrimStartKeepsEnd(path: bytes)
    ensures var r := TrimStart(path); |r| <= |path| && r == path[|path| - |r|..]
  {
    if path != [] && path[0] == SLASH {
      TrimStartKeepsEnd(path[1..]);
    }
  }

  /** A normalised export starts with exactly one slash and, unless it is the root,
      does not end in one; its components are those of the name. */
  lemma ExportShape(name: bytes)
    ensures var e := ExportOf(name);
      && e[0] == SLASH && (|e| > 1 ==> e[1] != SLASH && e[|e| - 1] != SLASH)
      && (|e| == 1 <==> Components(name) == [])
      && Components(e) == Components(name)
  {
    TrimStartKeepsEnd(TrimEnd(name));
    TrimStartComponents(TrimEnd(name));
    TrimEndComponents(name);
    LeadingSlash(TrimStart(TrimEnd(name)));
    var r := TrimStart(TrimEnd(name));
    if r != [] {
      FirstComponent(r);
    }
  }

  lemma FirstComponent(path: bytes)
    requires path != [] && path[0] != SLASH
    ensures Components(path) != []
  {
  }

  /** What of a request comes after the export, if it matches. */
  function ExportSubpath(requested: bytes, export_: bytes): Option<bytes> {
    if export_ == [SLASH] then
      if requested != [] && requested[0] == SLASH then Some(requested[1..]) else None
    else if !(export_ <= requested) then None
    else
      var rest := requested[|export_|..];
      if rest == [] then Some(rest)
      else if rest[0] == SLASH then Some(rest[1..])
      else None
  }

  /** A request matches if and only if it is the export, or goes on after it at a
      component boundary; its components are then the export's and those of the
      remainder. */
  lemma SubpathIff(requested: bytes, name: bytes)
    ensures var e := ExportOf(name); var rest := ExportSubpath(requested, e);
      && (rest.Some? <==> e <= requested && (|e| == 1 || |requested| == |e| || requested[|e|] == SLASH))
      && (rest.Some? ==> Components(requested) == Components(e) + Components(rest.value))
  {
    var e := ExportOf(name);
    var rest := ExportSubpath(requested, e);
    if rest.Some? {
      if |e| == 1 {
        assert requested == [] + [SLASH] + rest.value && e == [] + [SLASH] + [];
        ComponentsAtSlash([], rest.value);
        ComponentsAtSlash([], []);
        LeadingSlash([]);
      } else if |requested| == |e| {
        assert requested == e;
        NoComponents();
      } else {
        assert requested == e + [SLASH] + rest.value;
        ComponentsAtSlash(e, rest.value);
      }
    }
  }

  /** Slashes in front of the export are not ignored: a doubled leading slash names
      the same components but never matches an export other than the root. */
  lemma DoubledSlashRejected(name: bytes, tail: bytes)
    requires |ExportOf(name)| > 1
    ensures var requested := [SLASH] + ExportOf(name) + tail;
      && ExportSubpath(requested, ExportOf(name)).None?
      && Components(requested) == Components(ExportOf(name) + tail)
  {
    var e := ExportOf(name);
    ExportShape(name);
    assert ([SLASH] + e + tail)[1] == SLASH;
    assert [SLASH] + e + tail == [SLASH] + (e + tail);
    LeadingSlash(e + tail);
  }

  // ---- the handler -------------------------------------------------------

  const AUTH_NULL: u32 := 0
  const AUTH_UNIX: u32 := 1

  datatype Answer = Mounted(fileid: u64) | NoEntry

  /** The answer, from the request's components after the export. */
  function AnswerOf(lookup: Lookup, root: u64, requested: bytes, export_: bytes): Answer {
    var rest := ExportSubpath(requested, export_);
    if rest.None? then NoEntry
    else
      match Walk(lookup, root, Components(rest.value))
      case Ok(fileid) => Mounted(fileid)
      case Error(_) => NoEntry
  }

  function AnswerBytes(xid: u32, generation: u64, answer: Answer): bytes {
    match answer
    case NoEntry => EncMsg(SuccessReply(xid)) + EncU32(StatNumber(NoEnt3))
    case Mounted(fileid) =>
      EncMsg(SuccessReply(xid)) + (EncU32(StatNumber(Ok3))
        + (EncOpaque(IdToFh(generation, fileid)) + EncArray([AUTH_NULL, AUTH_UNIX])))
  }

  /** Trimming the remainder and putting one slash back changes no component. */
  lemma RebuiltComponents(path: bytes)
    ensures Components([SLASH] + TrimEnd(TrimStart(path))) == Components(path)
  {
    LeadingSlash(TrimEnd(TrimStart(path)));
    TrimEndComponents(TrimStart(path));
    TrimStartComponents(path);
  }

  method MountProc3Mnt(
    xid: u32, input: Reader, output: Writer, export_: bytes, generation: u64, root: u64, lookup: Lookup)
    returns (answer: Option<Answer>)
    modifies input, output
    ensures answer.Some? <==> DecOpaque(old(input.data)).Some?
    ensures answer.None? ==> output.data == old(output.data)
    ensures answer.Some? ==>
      && answer.value == AnswerOf(lookup, root, DecOpaque(old(input.data)).value.0, export_)
      && output.data == old(output.data) + AnswerBytes(xid, generation, answer.value)
  {
    var path := input.ReadOpaque();
    if path.None? {
      return None;
    }
    var rest := ExportSubpath(path.value, export_);
    if rest.Some? {
      var trimmed := TrimStartSlashes(rest.value);
      trimmed := TrimEndSlashes(trimmed);
      var rebuilt: bytes := [SLASH];
      rebuilt := rebuilt + trimmed;
      RebuiltComponents(rest.value);
      var id := PathToId(lookup, root, rebuilt);
      if id.Ok? {
        WriteMounted(xid, IdToFh(generation, id.value), output);
        return Some(Mounted(id.value));
      }
    }
    Regroup2(output.data, EncMsg(SuccessReply(xid)), EncU32(StatNumber(NoEnt3)));
    output.WriteAll(EncMsg(SuccessReply(xid)));
    output.WriteU32(StatNumber(NoEnt3));
    return Some(NoEntry);
  }

  method WriteMounted(xid: u32, handle: Handle, output: Writer)
    modifies output
    ensures output.data == old(output.data) + (EncMsg(SuccessReply(xid)) + (EncU32(StatNumber(Ok3))
        + (EncOpaque(handle) + EncArray([AUTH_NULL, AUTH_UNIX]))))
  {
    var tail := EncOpaque(handle) + EncArray([AUTH_NULL, AUTH_UNIX]);
    Appended3(output.data, EncMsg(SuccessReply(xid)), EncU32(StatNumber(Ok3)), tail);
    output.WriteAll(EncMsg(SuccessReply(xid)));
    output.WriteU32(StatNumber(Ok3));
    Regroup2(output.data, EncOpaque(handle), EncArray([AUTH_NULL, AUTH_UNIX]));
    output.WriteOpaque(handle);
    output.WriteArray([AUTH_NULL, AUTH_UNIX]);
  }

  /** Mounting the export followed by any components, with any extra slashes
      before, between and after them, gives what walking them from the root gives. */
  lemma MountResolves(
    lookup: Lookup, root: u64, name: bytes, components: seq<bytes>, extra: seq<nat>, before: nat, after: nat)
    requires |extra| == |components| && forall i | 0 <= i < |components| :: IsComponent(components[i])
    ensures var e := ExportOf(name);
      var requested := (if |e| == 1 then [] else e) + Slashes(before + 1) + Spelled(components, extra) + Slashes(after);
      AnswerOf(lookup, root, requested, e) ==
        match Walk(lookup, root, components)
        case Ok(fileid) => Mounted(fileid)
        case Error(_) => NoEntry
  {
    var e := ExportOf(name);
    var path := Spelled(components, extra);
    var tail := path + Slashes(after);
    var rest := Slashes(before) + tail;
    var prefix := if |e| == 1 then [] else e;
    var requested := prefix + Slashes(before + 1) + path + Slashes(after);
    assert Slashes(before + 1) == [SLASH] + Slashes(before);
    assert requested == prefix + [SLASH] + rest;
    assert e == [SLASH] || e <= requested;
    assert ExportSubpath(requested, e) == Some(rest);
    SlashesBefore(before, tail);
    SlashesAfter(path, after);
    SpelledComponents(components, extra);
  }
}
