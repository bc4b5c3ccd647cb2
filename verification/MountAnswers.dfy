/** What a client reads from the reply to MNT. */
module MountAnswers {
  import opened Wrappers
  import opened Xdr
  import opened XdrNfs
  import opened NfsReply
  import opened XdrRpc
  import opened Handles
  import opened Mount

  // ---- the walk ----------------------------------------------------------

  /** Looking up each name in the directory found before it leads along these ids. */
  ghost predicate LeadsAlong(lookup: Lookup, names: seq<bytes>, ids: seq<u64>) {
    |ids| == |names| + 1 && forall i | 0 <= i < |names| :: lookup(ids[i], names[i]) == Ok(ids[i + 1])
  }

  ghost predicate Leads(lookup: Lookup, root: u64, names: seq<bytes>, id: u64) {
    exists ids :: LeadsAlong(lookup, names, ids) && ids[0] == root && ids[|names|] == id
  }

  lemma {:induction false} WalkLeads(lookup: Lookup, root: u64, names: seq<bytes>) returns (ids: seq<u64>)
    requires Walk(lookup, root, names).Ok?
    ensures LeadsAlong(lookup, names, ids) && ids[0] == root
    ensures ids[|names|] == Walk(lookup, root, names).value
    decreases |names|
  {
    if names == [] {
      ids := [root];
    } else {
      var rest := WalkLeads(lookup, lookup(root, names[0]).value, names[1..]);
      ids := [root] + rest;
      forall i | 0 <= i < |names| ensures lookup(ids[i], names[i]) == Ok(ids[i + 1]) {
        if i > 0 {
          assert lookup(rest[i - 1], names[1..][i - 1]) == Ok(rest[i]);
        }
      }
    }
  }

  lemma {:induction false} LeadsWalk(lookup: Lookup, names: seq<bytes>, ids: seq<u64>)
    requires LeadsAlong(lookup, names, ids)
    ensures Walk(lookup, ids[0], names) == Ok(ids[|names|])
    decreases |names|
  {
    if names != [] {
      assert lookup(ids[0], names[0]) == Ok(ids[1]);
      var rest := ids[1..];
      forall i | 0 <= i < |names| - 1 ensures lookup(rest[i], names[1..][i]) == Ok(rest[i + 1]) {
        assert lookup(ids[i + 1], names[i + 1]) == Ok(ids[i + 2]);
      }
      LeadsWalk(lookup, names[1..], rest);
    }
  }

  lemma WalkIff(lookup: Lookup, root: u64, names: seq<bytes>, id: u64)
    ensures Walk(lookup, root, names) == Ok(id) <==> Leads(lookup, root, names, id)
  {
    if Walk(lookup, root, names) == Ok(id) {
      var _ := WalkLeads(lookup, root, names);
    }
    if Leads(lookup, root, names, id) {
      var ids :| LeadsAlong(lookup, names, ids) && ids[0] == root && ids[|names|] == id;
      LeadsWalk(lookup, names, ids);
    }
  }

  // ---- the answer --------------------------------------------------------

  /** The request is the export, or goes on after it with a slash. */
  predicate Below(requested: bytes, export_: bytes) {
    export_ <= requested && (|export_| == 1 || |requested| == |export_| || requested[|export_|] == SLASH)
  }

  lemma ComponentsBelow(requested: bytes, name: bytes) returns (names: seq<bytes>)
    requires Below(requested, ExportOf(name))
    ensures ExportSubpath(requested, ExportOf(name)).Some?
    ensures names == Components(ExportSubpath(requested, ExportOf(name)).value)
    ensures Components(requested) == Components(name) + names
  {
    SubpathIff(requested, name);
    ExportShape(name);
    names := Components(ExportSubpath(requested, ExportOf(name)).value);
  }

  /** A request is answered with an id if and only if it lies at or below the export and
      looking up its components beyond those of the export, from the root, leads there. */
  lemma MountedIff(lookup: Lookup, root: u64, requested: bytes, name: bytes, id: u64)
    ensures AnswerOf(lookup, root, requested, ExportOf(name)) == Mounted(id) <==>
      && Below(requested, ExportOf(name))
      && Components(name) <= Components(requested)
      && Leads(lookup, root, Components(requested)[|Components(name)|..], id)
  {
    SubpathIff(requested, name);
    if Below(requested, ExportOf(name)) {
      var names := ComponentsBelow(requested, name);
      assert Components(requested)[|Components(name)|..] == names;
      WalkIff(lookup, root, names, id);
    }
  }

  /** The answer to a request carries status 2, or status 0 with a handle that resolves to
      the id on this server, and the flavors AUTH_NULL and AUTH_UNIX. */
  lemma AnswerDecodes(xid: u32, generation: u64, answer: Answer, rest: bytes)
    ensures var head := DecAnswered(AnswerBytes(xid, generation, answer) + rest);
      && head.Some? && head.value.0 == Answered(xid, if answer.NoEntry? then 2 else 0)
      && (answer.NoEntry? ==> head.value.1 == rest)
      && (answer.Mounted? ==> MountPoint(generation, head.value.1) == Some((answer.fileid, [0, 1], rest)))
  {
    match answer
    case NoEntry =>
      Regroup2(EncMsg(SuccessReply(xid)), EncU32(2), rest);
      AnsweredRoundTrip(xid, 2, rest);
    case Mounted(id) =>
      var handle := IdToFh(generation, id);
      var flavors := EncArray([0, 1]);
      Regroup4(EncMsg(SuccessReply(xid)), EncU32(0), EncOpaque(handle), flavors, rest);
      AnsweredRoundTrip(xid, 0, EncOpaque(handle) + (flavors + rest));
      OpaqueRoundTrip(handle, flavors + rest);
      ArrayRoundTrip([0, 1], rest);
      HandleOfGeneration(generation, id, generation);
  }

  /** The id the handle resolves to, the flavors, and what comes after them. */
  function MountPoint(generation: u64, s: bytes): Option<(u64, seq<u32>, bytes)> {
    var (handle, s1) :- DecOpaque(s);
    var (flavors, s2) :- DecArray(s1);
    match FhToId(generation, handle)
    case Ok(id) => Some((id, flavors, s2))
    case Error(_) => None
  }

  /** So a client reads success if and only if its request lies at or below the export
      and leads somewhere. */
  lemma MountSucceedsIff(
    xid: u32, generation: u64, lookup: Lookup, root: u64, requested: bytes, name: bytes, rest: bytes)
    ensures var answer := AnswerOf(lookup, root, requested, ExportOf(name));
      var head := DecAnswered(AnswerBytes(xid, generation, answer) + rest);
      head.Some? && (head.value.0.stat == 0 <==>
        && Below(requested, ExportOf(name)) && Components(name) <= Components(requested)
        && exists id :: Leads(lookup, root, Components(requested)[|Components(name)|..], id))
  {
    var answer := AnswerOf(lookup, root, requested, ExportOf(name));
    AnswerDecodes(xid, generation, answer, rest);
    forall id: u64
      ensures answer == Mounted(id) <==>
        && Below(requested, ExportOf(name)) && Components(name) <= Components(requested)
        && Leads(lookup, root, Components(requested)[|Components(name)|..], id)
    {
      MountedIff(lookup, root, requested, name, id);
    }
  }
}
