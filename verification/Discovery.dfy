/** Admission of discovered tools: each search result is compared with the authority surface, the
    tool catalog and the extension evidence; what survives is taken from the server's own records. */
module Discovery {
  import opened Prelude

  datatype Effect = ReadOnly | ReadWrite

  datatype Dimension = NotApplicable | Restricted(values: set<string>)

  datatype Tool = Tool(toolName: string, namespace: string, schemaDigest: string, capabilityKey: string,
                       effect: Effect, sideEffecting: bool)

  /** `wellFormed` stands for the checks of text, digests and sizes. */
  datatype Surface = Surface(
    wellFormed: bool,
    digest: string,
    projectId: string,
    granted: set<string>,
    operations: Dimension,
    namespaces: Dimension,
    ceiling: Effect,
    catalog: map<string, Tool>,
    revoked: bool,
    expiresAt: nat)
  {
    /** No list of namespaces means none. */
    predicate AllowsNamespace(namespace: string) {
      namespaces.Restricted? && namespace in namespaces.values
    }

    /** No list of operations means all. */
    predicate AllowsOperation(operation: string) {
      operations.NotApplicable? || operation in operations.values
    }
  }

  datatype Provenance = PublisherSigned | RepositoryBundled | SelfAsserted | UnknownProvenance

  datatype Trust = Trusted | Untrusted | UnknownTrust

  datatype AdapterStatus = Available | OtherStatus

  datatype Evidence = Evidence(
    wellFormed: bool,
    projectId: string,
    manifestDigest: string,
    provenance: Provenance,
    projectLocal: bool,
    projectTrust: Trust,
    status: AdapterStatus,
    effect: Effect,
    required: set<string>)

  datatype Candidate = Candidate(
    wellFormed: bool,
    namespace: string,
    operation: string,
    capabilityKey: string,
    extensionId: string,
    componentId: string,
    manifestDigest: string,
    claimed: set<string>,
    schemaDigest: string,
    effect: Effect)
  {
    function EvidenceKey(): string { extensionId + "#" + componentId }

    function Pair(): (string, string) { (namespace, operation) }
  }

  datatype Denial =
    | RequestInvalid | SurfaceInvalid | AuthorizationStale | AuthorizationRevoked | AuthorizationExpired | SearchFailed
    | CandidateInvalid | DuplicateCandidate | UnknownNamespace | UnknownTool | SchemaUnregistered | EvidenceMissing
    | ProjectTrustUnverified | ProvenanceUnverified | ManifestDigestMismatch | AdapterNotAvailable | ProjectMismatch
    | CapabilityClaimMismatch | CapabilityNotGranted | OperationOutOfScope | ExtensionScopeSuperset
    | EffectClaimEscalated | EffectCeilingExceeded
  {
    function Precedence(): nat {
      match this
      case RequestInvalid => 0 case SurfaceInvalid => 1 case AuthorizationStale => 2
      case AuthorizationRevoked => 3 case AuthorizationExpired => 4 case SearchFailed => 5
      case CandidateInvalid => 6 case DuplicateCandidate => 7 case UnknownNamespace => 8
      case UnknownTool => 9 case SchemaUnregistered => 10 case EvidenceMissing => 11
      case ProjectTrustUnverified => 12 case ProvenanceUnverified => 13 case ManifestDigestMismatch => 14
      case AdapterNotAvailable => 15 case ProjectMismatch => 16 case CapabilityClaimMismatch => 17
      case CapabilityNotGranted => 18 case OperationOutOfScope => 19 case ExtensionScopeSuperset => 20
      case EffectClaimEscalated => 21 case EffectCeilingExceeded => 22
    }
  }

  datatype Entry = Entry(toolName: string, namespace: string, operation: string, capabilityKey: string,
                         effective: set<string>, effect: Effect, sideEffecting: bool)

  datatype Verdict = Admit(entry: Entry) | Deny(denial: Denial)

  type EvidenceMap = map<string, Evidence>

  function IntersectExtensionScope(requested: set<string>, granted: set<string>): set<string> {
    requested * granted
  }

  function RegisteredEffect(tool: Tool, record: Evidence): Effect {
    if tool.effect.ReadWrite? && record.effect.ReadWrite? then ReadWrite else ReadOnly
  }

  /** The checks of one candidate in their fixed order; `known` says that its namespace and operation
      were claimed before. */
  function Judge(c: Candidate, known: bool, surface: Surface, evidence: EvidenceMap): Verdict {
    if !c.wellFormed then Deny(CandidateInvalid)
    else if known then Deny(DuplicateCandidate)
    else if c.operation !in surface.catalog then Deny(UnknownTool)
    else
      var tool := surface.catalog[c.operation];
      if !surface.AllowsNamespace(c.namespace) || c.namespace != tool.namespace then Deny(UnknownNamespace)
      else if c.schemaDigest != tool.schemaDigest then Deny(SchemaUnregistered)
      else if c.EvidenceKey() !in evidence then Deny(EvidenceMissing)
      else JudgeEvidence(c, tool, evidence[c.EvidenceKey()], surface)
  }

  function JudgeEvidence(c: Candidate, tool: Tool, record: Evidence, surface: Surface): Verdict {
    if record.projectLocal && !record.projectTrust.Trusted? then Deny(ProjectTrustUnverified)
    else if !(record.provenance.PublisherSigned? || record.provenance.RepositoryBundled?) then Deny(ProvenanceUnverified)
    else if c.manifestDigest != record.manifestDigest then Deny(ManifestDigestMismatch)
    else if !record.status.Available? then Deny(AdapterNotAvailable)
    else if record.projectId != surface.projectId then Deny(ProjectMismatch)
    else if c.capabilityKey != tool.capabilityKey then Deny(CapabilityClaimMismatch)
    else if tool.capabilityKey !in surface.granted then Deny(CapabilityNotGranted)
    else if !surface.AllowsOperation(c.operation) then Deny(OperationOutOfScope)
    else
      var requested := record.required + c.claimed;
      var effective := IntersectExtensionScope(requested, surface.granted);
      var registered := RegisteredEffect(tool, record);
      if effective != requested then Deny(ExtensionScopeSuperset)
      else if c.effect.ReadWrite? && registered.ReadOnly? then Deny(EffectClaimEscalated)
      else if surface.ceiling.ReadOnly? && registered.ReadWrite? then Deny(EffectCeilingExceeded)
      else Admit(Entry(tool.toolName, tool.namespace, c.operation, tool.capabilityKey, effective, registered, tool.sideEffecting))
  }

  // ---------- which denial is reported ----------

  /** Each check on its own, wherever it can be asked, in terms of the records compared. */
  predicate Violates(d: Denial, c: Candidate, known: bool, surface: Surface, evidence: EvidenceMap) {
    var key := c.extensionId + "#" + c.componentId;
    var listed, proven := c.operation in surface.catalog, key in evidence;
    match d
    case CandidateInvalid => !c.wellFormed
    case DuplicateCandidate => known
    case UnknownNamespace =>
      || surface.namespaces.NotApplicable? || c.namespace !in surface.namespaces.values
      || (listed && c.namespace != surface.catalog[c.operation].namespace)
    case UnknownTool => !listed
    case SchemaUnregistered => listed && c.schemaDigest != surface.catalog[c.operation].schemaDigest
    case EvidenceMissing => !proven
    case ProjectTrustUnverified => proven && evidence[key].projectLocal && evidence[key].projectTrust != Trusted
    case ProvenanceUnverified =>
      proven && evidence[key].provenance != PublisherSigned && evidence[key].provenance != RepositoryBundled
    case ManifestDigestMismatch => proven && c.manifestDigest != evidence[key].manifestDigest
    case AdapterNotAvailable => proven && evidence[key].status != Available
    case ProjectMismatch => proven && evidence[key].projectId != surface.projectId
    case CapabilityClaimMismatch => listed && c.capabilityKey != surface.catalog[c.operation].capabilityKey
    case CapabilityNotGranted => listed && surface.catalog[c.operation].capabilityKey !in surface.granted
    case OperationOutOfScope => surface.operations.Restricted? && c.operation !in surface.operations.values
    case ExtensionScopeSuperset => proven && !(evidence[key].required <= surface.granted && c.claimed <= surface.granted)
    case EffectClaimEscalated =>
      listed && proven && c.effect == ReadWrite
      && (surface.catalog[c.operation].effect == ReadOnly || evidence[key].effect == ReadOnly)
    case EffectCeilingExceeded =>
      listed && proven && surface.ceiling == ReadOnly
      && surface.catalog[c.operation].effect == ReadWrite && evidence[key].effect == ReadWrite
    case _ => false
  }

  lemma {:induction false} ScopeKept(requested: set<string>, granted: set<string>)
    ensures IntersectExtensionScope(requested, granted) == requested <==> requested <= granted
  {
    if IntersectExtensionScope(requested, granted) == requested {
      forall x | x in requested
        ensures x in granted
      {
        assert x in IntersectExtensionScope(requested, granted);
      }
    }
  }

  /** A candidate is admitted exactly when it violates nothing; a denial is always a real violation. */
  lemma {:induction false} AdmittedExactly(c: Candidate, known: bool, surface: Surface, evidence: EvidenceMap)
    ensures Judge(c, known, surface, evidence).Admit? <==> forall d: Denial :: !Violates(d, c, known, surface, evidence)
    ensures Judge(c, known, surface, evidence).Deny? ==> Violates(Judge(c, known, surface, evidence).denial, c, known, surface, evidence)
  {
    if c.EvidenceKey() in evidence {
      ScopeKept(evidence[c.EvidenceKey()].required + c.claimed, surface.granted);
    }
    var verdict := Judge(c, known, surface, evidence);
    if verdict.Deny? {
      assert Violates(verdict.denial, c, known, surface, evidence);
    }
  }

  /** The entry is made of the server's records: the candidate only chooses among them, and what it may
      use is all that the manifest and the candidate ask for. */
  predicate MadeOf(entry: Entry, c: Candidate, surface: Surface, evidence: EvidenceMap) {
    var key := c.extensionId + "#" + c.componentId;
    && c.operation in surface.catalog && key in evidence
    && var tool, record := surface.catalog[c.operation], evidence[key];
       && entry.toolName == tool.toolName && entry.namespace == tool.namespace && entry.operation == c.operation
       && entry.capabilityKey == tool.capabilityKey && entry.sideEffecting == tool.sideEffecting
       && entry.effective == record.required + c.claimed
       && entry.effect == (if tool.effect == ReadWrite && record.effect == ReadWrite then ReadWrite else ReadOnly)
  }

  lemma {:induction false} EntryIsServers(c: Candidate, known: bool, surface: Surface, evidence: EvidenceMap)
    requires Judge(c, known, surface, evidence).Admit?
    ensures MadeOf(Judge(c, known, surface, evidence).entry, c, surface, evidence)
  {
    ScopeKept(evidence[c.EvidenceKey()].required + c.claimed, surface.granted);
  }

  /** The reported denial is the most serious one by precedence, except for an unregistered operation
      in a namespace that is not allowed: the catalog is asked first there. */
  lemma {:induction false} MostSeriousExactly(c: Candidate, known: bool, surface: Surface, evidence: EvidenceMap)
    requires Judge(c, known, surface, evidence).Deny?
    ensures var reported := Judge(c, known, surface, evidence).denial;
            (forall d: Denial :: Violates(d, c, known, surface, evidence) ==> reported.Precedence() <= d.Precedence())
            <==> !(c.wellFormed && !known && c.operation !in surface.catalog
                   && (surface.namespaces.NotApplicable? || c.namespace !in surface.namespaces.values))
  {
    if c.EvidenceKey() in evidence {
      ScopeKept(evidence[c.EvidenceKey()].required + c.claimed, surface.granted);
    }
    var reported := Judge(c, known, surface, evidence).denial;
    if c.wellFormed && !known && c.operation !in surface.catalog && !surface.AllowsNamespace(c.namespace) {
      assert Violates(UnknownNamespace, c, known, surface, evidence);
      assert reported == UnknownTool && UnknownNamespace.Precedence() < reported.Precedence();
    } else {
      forall d: Denial | Violates(d, c, known, surface, evidence)
        ensures reported.Precedence() <= d.Precedence()
      {
      }
    }
  }

  /** A catalog of one read-only tool, and a candidate for it with evidence. */
  const SAMPLE_TOOL := Tool("t", "n", "d", "k", ReadOnly, false)
  const SAMPLE_SURFACE :=
    Surface(true, "s", "p", {"k"}, NotApplicable, Restricted({"n"}), ReadWrite, map["o" := SAMPLE_TOOL], false, 1)
  const SAMPLE_CANDIDATE := Candidate(true, "n", "o", "k", "e", "c", "m", {"k"}, "d", ReadOnly)
  const SAMPLE_EVIDENCE: EvidenceMap :=
    map["e#c" := Evidence(true, "p", "m", PublisherSigned, false, Trusted, Available, ReadOnly, {})]

  /** An unregistered operation in a forbidden namespace: the operation is reported, although the
      namespace would be more serious. */
  lemma {:induction false} CatalogAskedFirst() returns (c: Candidate)
    ensures Violates(UnknownNamespace, c, false, SAMPLE_SURFACE, SAMPLE_EVIDENCE)
    ensures Judge(c, false, SAMPLE_SURFACE, SAMPLE_EVIDENCE) == Deny(UnknownTool)
    ensures UnknownNamespace.Precedence() < UnknownTool.Precedence()
  {
    c := SAMPLE_CANDIDATE.(namespace := "forbidden", operation := "unregistered");
  }

  /** An escalated effect is reported exactly when nothing else is violated; in particular it is never
      reported for a candidate whose capability is not granted. */
  lemma {:induction false} EscalationReportedExactly(c: Candidate, known: bool, surface: Surface, evidence: EvidenceMap)
    requires Violates(EffectClaimEscalated, c, known, surface, evidence)
    ensures Judge(c, known, surface, evidence) == Deny(EffectClaimEscalated) <==>
            forall d: Denial :: Violates(d, c, known, surface, evidence) ==> d == EffectClaimEscalated
    ensures Violates(CapabilityNotGranted, c, known, surface, evidence) ==>
              Judge(c, known, surface, evidence).Deny? && Judge(c, known, surface, evidence).denial != EffectClaimEscalated
  {
    AdmittedExactly(c, known, surface, evidence);
    if c.EvidenceKey() in evidence {
      ScopeKept(evidence[c.EvidenceKey()].required + c.claimed, surface.granted);
    }
  }

  /** Such a candidate exists; it is reported as a missing capability. */
  lemma {:induction false} EscalationReportedAsMissingCapability() returns (c: Candidate, surface: Surface)
    ensures Violates(EffectClaimEscalated, c, false, surface, SAMPLE_EVIDENCE)
    ensures Violates(CapabilityNotGranted, c, false, surface, SAMPLE_EVIDENCE)
    ensures Judge(c, false, surface, SAMPLE_EVIDENCE) == Deny(CapabilityNotGranted)
  {
    c := SAMPLE_CANDIDATE.(effect := ReadWrite);
    surface := SAMPLE_SURFACE.(granted := {});
    assert c.EvidenceKey() == "e#c";
  }

  // ---------- the pass over the candidates ----------

  /** The pairs claimed by well-formed candidates, admitted or not. */
  function Pairs(cs: seq<Candidate>): set<(string, string)> {
    set i | 0 <= i < |cs| && cs[i].wellFormed :: cs[i].Pair()
  }

  function VerdictAt(cs: seq<Candidate>, i: nat, surface: Surface, evidence: EvidenceMap): Verdict
    requires i < |cs|
  {
    Judge(cs[i], cs[i].Pair() in Pairs(cs[..i]), surface, evidence)
  }

  function Entries(cs: seq<Candidate>, surface: Surface, evidence: EvidenceMap): seq<Entry> {
    if cs == [] then []
    else
      var last := |cs| - 1;
      var verdict := VerdictAt(cs, last, surface, evidence);
      Entries(cs[..last], surface, evidence) + (if verdict.Admit? then [verdict.entry] else [])
  }

  datatype Reference = WholeRequest | ByOperation(operation: string) | ByPosition(index: nat)

  datatype DenialRecord = DenialRecord(reference: Reference, denial: Denial)

  function Denials(cs: seq<Candidate>, surface: Surface, evidence: EvidenceMap): seq<DenialRecord> {
    if cs == [] then []
    else
      var last := |cs| - 1;
      var verdict := VerdictAt(cs, last, surface, evidence);
      Denials(cs[..last], surface, evidence)
      + (if verdict.Deny? then [DenialRecord(ReferenceOf(cs[last], last), verdict.denial)] else [])
  }

  function ReferenceOf(c: Candidate, index: nat): Reference {
    if c.wellFormed && c.operation != "" then ByOperation(c.operation) else ByPosition(index)
  }

  datatype Status = Admitted | Denied | Unknown

  datatype Request = Request(wellFormed: bool, surfaceDigest: string)

  datatype Outcome = Completed(candidates: seq<Candidate>) | Failed

  datatype Report = Report(status: Status, admitted: seq<Entry>, denials: seq<DenialRecord>, retryRequired: bool)

  const MAX_DISCOVERY_CANDIDATES: nat := 128

  /** The first reason, if any, why no candidate is looked at. */
  function RequestDenial(request: Request, surface: Surface, evidence: EvidenceMap, outcome: Outcome, now: nat): Option<Denial> {
    if !request.wellFormed then Some(RequestInvalid)
    else if !surface.wellFormed || exists k :: k in evidence && !evidence[k].wellFormed then Some(SurfaceInvalid)
    else if request.surfaceDigest != surface.digest then Some(AuthorizationStale)
    else if surface.revoked then Some(AuthorizationRevoked)
    else if now >= surface.expiresAt then Some(AuthorizationExpired)
    else if outcome.Failed? then Some(SearchFailed)
    else if |outcome.candidates| > MAX_DISCOVERY_CANDIDATES then Some(RequestInvalid)
    else None
  }

  /** Each check of the whole request on its own. */
  predicate RequestViolates(d: Denial, request: Request, surface: Surface, evidence: EvidenceMap, outcome: Outcome, now: nat) {
    match d
    case RequestInvalid => !request.wellFormed || (outcome.Completed? && |outcome.candidates| > 128)
    case SurfaceInvalid => !surface.wellFormed || exists k :: k in evidence && !evidence[k].wellFormed
    case AuthorizationStale => request.surfaceDigest != surface.digest
    case AuthorizationRevoked => surface.revoked
    case AuthorizationExpired => now >= surface.expiresAt
    case SearchFailed => outcome.Failed?
    case _ => false
  }

  /** A check between the shape of the request and the search fails. */
  predicate Unanswerable(request: Request, surface: Surface, evidence: EvidenceMap, now: nat) {
    || !surface.wellFormed || (exists k :: k in evidence && !evidence[k].wellFormed)
    || request.surfaceDigest != surface.digest || surface.revoked || now >= surface.expiresAt
  }

  /** A request is answered exactly when no check fails. The reported failure is the most serious one,
      except for a well-formed request with too many candidates that also fails a check of the surface:
      the number of candidates is looked at last. */
  lemma {:induction false} RequestMostSeriousExactly(request: Request, surface: Surface, evidence: EvidenceMap, outcome: Outcome, now: nat)
    ensures var reported := RequestDenial(request, surface, evidence, outcome, now);
            && (reported.None? <==> forall d: Denial :: !RequestViolates(d, request, surface, evidence, outcome, now))
            && (reported.Some? ==>
                  && RequestViolates(reported.value, request, surface, evidence, outcome, now)
                  && ((forall d: Denial :: RequestViolates(d, request, surface, evidence, outcome, now)
                                           ==> reported.value.Precedence() <= d.Precedence())
                      <==> !(request.wellFormed && outcome.Completed? && |outcome.candidates| > 128
                             && Unanswerable(request, surface, evidence, now)))
                  && (forall d: Denial :: RequestViolates(d, request, surface, evidence, outcome, now) && d != RequestInvalid
                                          && reported.value != RequestInvalid
                                          ==> reported.value.Precedence() <= d.Precedence()))
  {
    var reported := RequestDenial(request, surface, evidence, outcome, now);
    if reported.Some? {
      assert RequestViolates(reported.value, request, surface, evidence, outcome, now);
      if request.wellFormed && outcome.Completed? && |outcome.candidates| > MAX_DISCOVERY_CANDIDATES {
        assert RequestViolates(RequestInvalid, request, surface, evidence, outcome, now);
      }
    }
  }

  /** 129 candidates found under a revoked surface: the revocation is reported, although an invalid
      request would be more serious. */
  lemma {:induction false} TooManyNoticedLast()
      returns (request: Request, surface: Surface, outcome: Outcome)
    ensures RequestViolates(RequestInvalid, request, surface, map[], outcome, 0)
    ensures RequestDenial(request, surface, map[], outcome, 0) == Some(AuthorizationRevoked)
    ensures RequestInvalid.Precedence() < AuthorizationRevoked.Precedence()
  {
    surface := SAMPLE_SURFACE.(revoked := true);
    request := Request(true, surface.digest);
    outcome := Completed(seq(129, i requires 0 <= i < 129 => SAMPLE_CANDIDATE));
  }

  /** The pass over one more candidate. */
  lemma {:induction false} PassOneMore(cs: seq<Candidate>, i: nat, surface: Surface, evidence: EvidenceMap)
    requires i < |cs|
    ensures cs[..i + 1][..i] == cs[..i]
    ensures VerdictAt(cs[..i + 1], i, surface, evidence) == VerdictAt(cs, i, surface, evidence)
    ensures var verdict := VerdictAt(cs, i, surface, evidence);
            && Entries(cs[..i + 1], surface, evidence)
               == Entries(cs[..i], surface, evidence) + (if verdict.Admit? then [verdict.entry] else [])
            && Denials(cs[..i + 1], surface, evidence)
               == Denials(cs[..i], surface, evidence)
                  + (if verdict.Deny? then [DenialRecord(ReferenceOf(cs[i], i), verdict.denial)] else [])
    ensures Pairs(cs[..i + 1]) == if cs[i].wellFormed then Pairs(cs[..i]) + {cs[i].Pair()} else Pairs(cs[..i])
  {
    var before, after := cs[..i], cs[..i + 1];
    assert after[..i] == before;
    assert forall k :: 0 <= k < i ==> after[k] == before[k];
  }

  /** One candidate against the surface; `seen` is updated as soon as the candidate is well formed. */
  method AdmitCandidate(c: Candidate, surface: Surface, evidence: EvidenceMap, seen: set<(string, string)>)
      returns (verdict: Verdict, seen': set<(string, string)>)
    ensures verdict == Judge(c, c.Pair() in seen, surface, evidence)
    ensures seen' == if c.wellFormed then seen + {c.Pair()} else seen
  {
    seen' := seen;
    if !c.wellFormed {
      return Deny(CandidateInvalid), seen';
    }
    if c.Pair() in seen {
      assert seen + {c.Pair()} == seen;
      return Deny(DuplicateCandidate), seen';
    }
    seen' := seen' + {c.Pair()};
    verdict := Judge(c, false, surface, evidence);
  }

  /** The loop over the candidates. */
  method AdmitAll(candidates: seq<Candidate>, surface: Surface, evidence: EvidenceMap)
      returns (admitted: seq<Entry>, denials: seq<DenialRecord>)
    ensures admitted == Entries(candidates, surface, evidence)
    ensures denials == Denials(candidates, surface, evidence)
  {
    admitted, denials := [], [];
    var seen: set<(string, string)> := {};
    for index := 0 to |candidates|
      invariant seen == Pairs(candidates[..index])
      invariant admitted == Entries(candidates[..index], surface, evidence)
      invariant denials == Denials(candidates[..index], surface, evidence)
    {
      PassOneMore(candidates, index, surface, evidence);
      var verdict;
      verdict, seen := AdmitCandidate(candidates[index], surface, evidence, seen);
      match verdict {
        case Admit(entry) => admitted := admitted + [entry];
        case Deny(denial) =>
          denials := denials + [DenialRecord(ReferenceOf(candidates[index], index), denial)];
      }
    }
    assert candidates[..|candidates|] == candidates;
  }

  function DeniedWhole(denial: Denial): Report {
    Report(Denied, [], [DenialRecord(WholeRequest, denial)], false)
  }

  method Evaluate(request: Request, surface: Surface, evidence: EvidenceMap, outcome: Outcome, now: nat) returns (r: Report)
    ensures RequestDenial(request, surface, evidence, outcome, now).Some? ==>
              && r.admitted == []
              && r.denials == [DenialRecord(WholeRequest, RequestDenial(request, surface, evidence, outcome, now).value)]
              && r.retryRequired == RequestDenial(request, surface, evidence, outcome, now).value.SearchFailed?
              && r.status == if r.retryRequired then Unknown else Denied
    ensures RequestDenial(request, surface, evidence, outcome, now).None? ==>
              && r.admitted == Entries(outcome.candidates, surface, evidence)
              && r.denials == Denials(outcome.candidates, surface, evidence)
              && !r.retryRequired && r.status == if r.admitted == [] then Denied else Admitted
  {
    if !request.wellFormed {
      return DeniedWhole(RequestInvalid);
    }
    if !surface.wellFormed || exists k :: k in evidence && !evidence[k].wellFormed {
      return DeniedWhole(SurfaceInvalid);
    }
    if request.surfaceDigest != surface.digest {
      return DeniedWhole(AuthorizationStale);
    }
    if surface.revoked {
      return DeniedWhole(AuthorizationRevoked);
    }
    if now >= surface.expiresAt {
      return DeniedWhole(AuthorizationExpired);
    }
    if outcome.Failed? {
      return Report(Unknown, [], [DenialRecord(WholeRequest, SearchFailed)], true);
    }
    if |outcome.candidates| > MAX_DISCOVERY_CANDIDATES {
      return DeniedWhole(RequestInvalid);
    }
    var admitted, denials := AdmitAll(outcome.candidates, surface, evidence);
    r := Report(if |admitted| == 0 then Denied else Admitted, admitted, denials, false);
  }

  // ---------- narrowing, grants, uniqueness ----------

  /** The same catalog and project under a smaller grant. */
  predicate Narrows(narrow: Surface, wide: Surface) {
    && narrow.catalog == wide.catalog && narrow.projectId == wide.projectId
    && narrow.granted <= wide.granted
    && (narrow.namespaces.NotApplicable?
        || (wide.namespaces.Restricted? && narrow.namespaces.values <= wide.namespaces.values))
    && (wide.operations.NotApplicable?
        || (narrow.operations.Restricted? && narrow.operations.values <= wide.operations.values))
    && (narrow.ceiling.ReadWrite? ==> wide.ceiling.ReadWrite?)
  }

  lemma {:induction false} NarrowerAdmitsSame(c: Candidate, known: bool, narrow: Surface, wide: Surface, evidence: EvidenceMap)
    requires Narrows(narrow, wide) && Judge(c, known, narrow, evidence).Admit?
    ensures Judge(c, known, wide, evidence) == Judge(c, known, narrow, evidence)
  {
    var requested := evidence[c.EvidenceKey()].required + c.claimed;
    ScopeKept(requested, narrow.granted);
    ScopeKept(requested, wide.granted);
  }

  /** Narrowing the surface only removes entries: what is still admitted is unchanged and in order. */
  lemma {:induction false} NarrowingOnlyRemoves(cs: seq<Candidate>, narrow: Surface, wide: Surface, evidence: EvidenceMap)
      returns (at: seq<nat>)
    requires Narrows(narrow, wide)
    ensures Picks(Entries(cs, wide, evidence), Entries(cs, narrow, evidence), at)
  {
    if cs == [] {
      at := [];
    } else {
      var last := |cs| - 1;
      at := NarrowingOnlyRemoves(cs[..last], narrow, wide, evidence);
      var fewer, more := Entries(cs[..last], narrow, evidence), Entries(cs[..last], wide, evidence);
      var verdict := VerdictAt(cs, last, wide, evidence);
      if VerdictAt(cs, last, narrow, evidence).Admit? {
        NarrowerAdmitsSame(cs[last], cs[last].Pair() in Pairs(cs[..last]), narrow, wide, evidence);
        PicksTake(more, fewer, at, verdict.entry);
        at := at + [|more|];
      } else if verdict.Admit? {
        PicksSkip(more, fewer, at, verdict.entry);
        assert Entries(cs, narrow, evidence) == fewer;
      }
    }
  }

  /** Every entry stays within the grant, carries the catalog's own data, and no operation is admitted
      twice. */
  lemma {:induction false} EntriesAreGranted(cs: seq<Candidate>, surface: Surface, evidence: EvidenceMap)
    ensures forall e :: e in Entries(cs, surface, evidence) ==>
              && e.effective <= surface.granted && e.capabilityKey in surface.granted
              && surface.namespaces.Restricted? && e.namespace in surface.namespaces.values
              && (surface.operations.Restricted? ==> e.operation in surface.operations.values)
              && (e.effect.ReadWrite? ==> surface.ceiling.ReadWrite?)
              && e.operation in surface.catalog
              && e.toolName == surface.catalog[e.operation].toolName
              && e.namespace == surface.catalog[e.operation].namespace
              && e.sideEffecting == surface.catalog[e.operation].sideEffecting
              && (e.namespace, e.operation) in Pairs(cs)
  {
    if cs != [] {
      var last := |cs| - 1;
      EntriesAreGranted(cs[..last], surface, evidence);
      assert cs[..last + 1] == cs;
      PassOneMore(cs, last, surface, evidence);
    }
  }

  predicate DistinctOperations(entries: seq<Entry>) {
    forall i, j :: 0 <= i < j < |entries| ==> entries[i].operation != entries[j].operation
  }

  lemma {:induction false} NoOperationTwice(cs: seq<Candidate>, surface: Surface, evidence: EvidenceMap)
    ensures DistinctOperations(Entries(cs, surface, evidence))
  {
    if cs != [] {
      var last := |cs| - 1;
      NoOperationTwice(cs[..last], surface, evidence);
      EntriesAreGranted(cs[..last], surface, evidence);
      var before := Entries(cs[..last], surface, evidence);
      var verdict := VerdictAt(cs, last, surface, evidence);
      if verdict.Admit? {
        forall i | 0 <= i < |before|
          ensures before[i].operation != verdict.entry.operation
        {
          assert before[i] in before;
        }
        assert Entries(cs, surface, evidence) == before + [verdict.entry];
      } else {
        assert Entries(cs, surface, evidence) == before;
      }
    }
  }

  // ---------- the report over the list ----------

  /** An earlier well-formed candidate has claimed the namespace and the operation. */
  predicate Repeats(cs: seq<Candidate>, i: nat)
    requires i < |cs|
  {
    exists k :: 0 <= k < i && cs[k].wellFormed && cs[k].namespace == cs[i].namespace && cs[k].operation == cs[i].operation
  }

  ghost predicate Blameless(cs: seq<Candidate>, i: nat, surface: Surface, evidence: EvidenceMap)
    requires i < |cs|
  {
    forall d: Denial :: !Violates(d, cs[i], Repeats(cs, i), surface, evidence)
  }

  /** The record names the candidate, by operation if it can, and a check that the candidate fails: the
      most serious one, but for an operation that is not in the catalog. */
  ghost predicate Blames(record: DenialRecord, cs: seq<Candidate>, i: nat, surface: Surface, evidence: EvidenceMap)
    requires i < |cs|
  {
    var c := cs[i];
    && record.reference == (if c.wellFormed && c.operation != "" then ByOperation(c.operation) else ByPosition(i))
    && Violates(record.denial, c, Repeats(cs, i), surface, evidence)
    && if c.wellFormed && !Repeats(cs, i) && c.operation !in surface.catalog then record.denial == UnknownTool
       else forall d: Denial :: Violates(d, c, Repeats(cs, i), surface, evidence)
                                ==> record.denial.Precedence() <= d.Precedence()
  }

  lemma {:induction false} ClaimedExactly(cs: seq<Candidate>, i: nat)
    requires i < |cs|
    ensures cs[i].Pair() in Pairs(cs[..i]) <==> Repeats(cs, i)
  {
    if Repeats(cs, i) {
      var k :| 0 <= k < i && cs[k].wellFormed && cs[k].namespace == cs[i].namespace && cs[k].operation == cs[i].operation;
      assert cs[..i][k].Pair() == cs[i].Pair();
    }
  }

  lemma {:induction false} VerdictMeans(cs: seq<Candidate>, i: nat, surface: Surface, evidence: EvidenceMap)
    requires i < |cs|
    ensures var verdict := VerdictAt(cs, i, surface, evidence);
            && (verdict.Admit? <==> Blameless(cs, i, surface, evidence))
            && (verdict.Admit? ==> MadeOf(verdict.entry, cs[i], surface, evidence))
            && (verdict.Deny? ==> Blames(DenialRecord(ReferenceOf(cs[i], i), verdict.denial), cs, i, surface, evidence))
  {
    var c, known := cs[i], Repeats(cs, i);
    ClaimedExactly(cs, i);
    AdmittedExactly(c, known, surface, evidence);
    if Judge(c, known, surface, evidence).Admit? {
      EntryIsServers(c, known, surface, evidence);
    } else {
      MostSeriousExactly(c, known, surface, evidence);
    }
  }

  ghost predicate EntryFits(cs: seq<Candidate>, i: nat, entry: Entry, surface: Surface, evidence: EvidenceMap) {
    i < |cs| && Blameless(cs, i, surface, evidence) && MadeOf(entry, cs[i], surface, evidence)
  }

  ghost predicate RecordFits(cs: seq<Candidate>, i: nat, record: DenialRecord, surface: Surface, evidence: EvidenceMap) {
    i < |cs| && !Blameless(cs, i, surface, evidence) && Blames(record, cs, i, surface, evidence)
  }

  /** The entries are those of candidates `at` among the first n. */
  ghost predicate EntriesFit(cs: seq<Candidate>, n: nat, entries: seq<Entry>, at: seq<nat>, surface: Surface, evidence: EvidenceMap) {
    && |at| == |entries| && Increasing(at, n)
    && forall k :: 0 <= k < |at| ==> EntryFits(cs, at[k], entries[k], surface, evidence)
  }

  ghost predicate RecordsFit(cs: seq<Candidate>, n: nat, records: seq<DenialRecord>, out: seq<nat>, surface: Surface, evidence: EvidenceMap) {
    && |out| == |records| && Increasing(out, n)
    && forall k :: 0 <= k < |out| ==> RecordFits(cs, out[k], records[k], surface, evidence)
  }

  lemma {:induction false} EntriesPush(cs: seq<Candidate>, n: nat, entries: seq<Entry>, at: seq<nat>, surface: Surface,
                                       evidence: EvidenceMap, entry: Entry)
    requires EntriesFit(cs, n, entries, at, surface, evidence) && EntryFits(cs, n, entry, surface, evidence)
    ensures EntriesFit(cs, n + 1, entries + [entry], at + [n], surface, evidence)
  {
  }

  lemma {:induction false} RecordsPush(cs: seq<Candidate>, n: nat, records: seq<DenialRecord>, out: seq<nat>, surface: Surface,
                                       evidence: EvidenceMap, record: DenialRecord)
    requires RecordsFit(cs, n, records, out, surface, evidence) && RecordFits(cs, n, record, surface, evidence)
    ensures RecordsFit(cs, n + 1, records + [record], out + [n], surface, evidence)
  {
  }

  predicate AllCovered(n: nat, at: seq<nat>, out: seq<nat>) {
    forall i :: 0 <= i < n ==> i in at || i in out
  }

  lemma {:induction false} CoveredPush(n: nat, at: seq<nat>, out: seq<nat>)
    requires AllCovered(n, at, out)
    ensures AllCovered(n + 1, at + [n], out) && AllCovered(n + 1, at, out + [n])
  {
    assert (at + [n])[|at|] == n && (out + [n])[|out|] == n;
    forall i | 0 <= i < n
      ensures (i in at + [n] || i in out) && (i in at || i in out + [n])
    {
      assert i in at || i in out;
    }
  }

  lemma {:induction false} ExactStep(cs: seq<Candidate>, n: nat, entries: seq<Entry>, at: seq<nat>, records: seq<DenialRecord>,
                                     out: seq<nat>, surface: Surface, evidence: EvidenceMap)
      returns (at': seq<nat>, out': seq<nat>)
    requires n < |cs| && AllCovered(n, at, out)
    requires EntriesFit(cs, n, entries, at, surface, evidence) && RecordsFit(cs, n, records, out, surface, evidence)
    ensures var verdict := VerdictAt(cs, n, surface, evidence);
            && EntriesFit(cs, n + 1, entries + (if verdict.Admit? then [verdict.entry] else []), at', surface, evidence)
            && RecordsFit(cs, n + 1, records + (if verdict.Deny? then [DenialRecord(ReferenceOf(cs[n], n), verdict.denial)] else []),
                          out', surface, evidence)
    ensures AllCovered(n + 1, at', out')
  {
    VerdictMeans(cs, n, surface, evidence);
    CoveredPush(n, at, out);
    var verdict := VerdictAt(cs, n, surface, evidence);
    if verdict.Admit? {
      EntriesPush(cs, n, entries, at, surface, evidence, verdict.entry);
      assert records + [] == records;
      at', out' := at + [n], out;
    } else {
      RecordsPush(cs, n, records, out, surface, evidence, DenialRecord(ReferenceOf(cs[n], n), verdict.denial));
      assert entries + [] == entries;
      at', out' := at, out + [n];
    }
  }

  lemma {:induction false} ExactUpTo(cs: seq<Candidate>, n: nat, surface: Surface, evidence: EvidenceMap)
      returns (at: seq<nat>, out: seq<nat>)
    requires n <= |cs|
    ensures EntriesFit(cs, n, Entries(cs[..n], surface, evidence), at, surface, evidence)
    ensures RecordsFit(cs, n, Denials(cs[..n], surface, evidence), out, surface, evidence)
    ensures AllCovered(n, at, out)
  {
    if n == 0 {
      at, out := [], [];
    } else {
      at, out := ExactUpTo(cs, n - 1, surface, evidence);
      PassOneMore(cs, n - 1, surface, evidence);
      at, out := ExactStep(cs, n - 1, Entries(cs[..n - 1], surface, evidence), at, Denials(cs[..n - 1], surface, evidence), out,
                           surface, evidence);
    }
  }

  /** The report is exact: the entries are those of the candidates that fail no check, in order, and every
      other candidate has one record, in order, that names it and a check that it fails. */
  lemma {:induction false} ReportIsExact(cs: seq<Candidate>, surface: Surface, evidence: EvidenceMap)
      returns (at: seq<nat>, out: seq<nat>)
    ensures EntriesFit(cs, |cs|, Entries(cs, surface, evidence), at, surface, evidence)
    ensures RecordsFit(cs, |cs|, Denials(cs, surface, evidence), out, surface, evidence)
    ensures AllCovered(|cs|, at, out)
  {
    at, out := ExactUpTo(cs, |cs|, surface, evidence);
    assert cs[..|cs|] == cs;
  }

  /** Every candidate ends as an entry or as a denial, never both, never neither. */
  lemma {:induction false} NothingDropped(cs: seq<Candidate>, surface: Surface, evidence: EvidenceMap)
    ensures |Entries(cs, surface, evidence)| + |Denials(cs, surface, evidence)| == |cs|
  {
    if cs != [] {
      NothingDropped(cs[..|cs| - 1], surface, evidence);
    }
  }
}
