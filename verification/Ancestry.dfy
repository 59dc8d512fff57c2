/** Revision ancestry of the governance documents: a validator that accepts a set of revisions only
    if they form one hash-linked chain, the loader that collects a chain from its head, and the
    builder of successors. */
module Ancestry {
  import opened Prelude

  /** A JSON member: absent, a string, or a value of another type, known by its printed form. */
  datatype Field = Missing | Text(s: string) | NotText(shown: string)

  datatype Kind = Genesis | Successor | OtherKind

  /** An evidence record, sealed by the hash of everything else in it. */
  datatype Record = Record(evidenceId: Field, sequence: Option<int>, previousSha: Field, sha: Field, body: nat)

  datatype RecordList = NoList | Records(list: seq<Record>)

  datatype Revision = Revision(
    id: Field,
    kind: Kind,
    genesisReason: Field,
    previousId: Field,
    previousPath: Field,
    previousSha: Field,
    records: RecordList,
    body: nat)

  type Hash = Revision -> string

  ghost predicate Injective<T(!new)>(hash: T -> string) {
    forall a, b :: hash(a) == hash(b) ==> a == b
  }

  // ---------- text and paths ----------

  predicate IsSpace(c: char) {
    var n := c as int;
    || 0x09 <= n <= 0x0D || 0x1C <= n <= 0x20 || n == 0x85 || n == 0xA0 || n == 0x1680
    || 0x2000 <= n <= 0x200A || n == 0x2028 || n == 0x2029 || n == 0x202F || n == 0x205F || n == 0x3000
  }

  /** Whether the printed form of a member is more than white space. */
  predicate HasWords(field: Field) {
    match field
    case Missing => false
    case Text(s) => exists i :: 0 <= i < |s| && !IsSpace(s[i])
    case NotText(shown) => exists i :: 0 <= i < |shown| && !IsSpace(shown[i])
  }

  /** A text without the white space at its ends. */
  function Stripped(s: string): string {
    if s == "" then ""
    else if IsSpace(s[0]) then Stripped(s[1..])
    else if IsSpace(s[|s| - 1]) then Stripped(s[..|s| - 1])
    else s
  }

  lemma {:induction false} StrippedExactly(s: string)
    ensures Stripped(s) != "" <==> exists i :: 0 <= i < |s| && !IsSpace(s[i])
  {
    if s != "" {
      if IsSpace(s[0]) {
        StrippedExactly(s[1..]);
        forall i | 0 < i < |s|
          ensures s[i] == s[1..][i - 1]
        {
        }
      } else if IsSpace(s[|s| - 1]) {
        StrippedExactly(s[..|s| - 1]);
        assert s[..|s| - 1][0] == s[0];
      } else {
        assert Stripped(s) == s;
      }
    }
  }

  /** A reason counts exactly when something is left of it without the white space at its ends. */
  lemma {:induction false} HasWordsExactly(field: Field)
    ensures HasWords(field) <==> match field
              case Missing => false
              case Text(s) => Stripped(s) != ""
              case NotText(shown) => Stripped(shown) != ""
  {
    match field {
      case Missing =>
      case Text(s) => StrippedExactly(s);
      case NotText(shown) => StrippedExactly(shown);
    }
  }

  /** The file part of a binding path, up to the first '#'. */
  function FilePart(raw: string): string {
    if raw == "" || raw[0] == '#' then "" else [raw[0]] + FilePart(raw[1..])
  }

  predicate IsLetter(c: char) { 'A' <= c <= 'Z' || 'a' <= c <= 'z' }

  /** The parts of a path between its slashes. */
  function Parts(path: string): (parts: seq<string>)
    ensures parts != []
  {
    if path == "" then [""]
    else
      var rest := Parts(path[1..]);
      if path[0] == '/' then [""] + rest else [[path[0]] + rest[0]] + rest[1..]
  }

  function Joined(parts: seq<string>): string
    requires parts != []
  {
    if |parts| == 1 then parts[0] else parts[0] + "/" + Joined(parts[1..])
  }

  lemma {:induction false} JoinedNew(parts: seq<string>)
    requires parts != []
    ensures Joined([""] + parts) == "/" + Joined(parts)
  {
    assert ([""] + parts)[1..] == parts;
    assert "" + "/" + Joined(parts) == "/" + Joined(parts);
  }

  lemma {:induction false} JoinedGrows(c: char, parts: seq<string>)
    requires parts != []
    ensures Joined([[c] + parts[0]] + parts[1..]) == [c] + Joined(parts)
  {
    var longer := [[c] + parts[0]] + parts[1..];
    assert longer[1..] == parts[1..];
    if |parts| > 1 {
      assert ([c] + parts[0]) + "/" + Joined(parts[1..]) == [c] + (parts[0] + "/" + Joined(parts[1..]));
    }
  }

  predicate NoSlash(parts: seq<string>) {
    forall i :: 0 <= i < |parts| ==> '/' !in parts[i]
  }

  /** They are what the slashes separate. */
  lemma {:induction false} PartsJoin(path: string)
    ensures Joined(Parts(path)) == path && NoSlash(Parts(path))
  {
    if path != "" {
      var rest := Parts(path[1..]);
      PartsJoin(path[1..]);
      assert path == [path[0]] + path[1..];
      if path[0] == '/' {
        JoinedNew(rest);
      } else {
        JoinedGrows(path[0], rest);
      }
    }
  }

  predicate SafePath(field: Field) {
    && field.Text?
    && (forall i :: 0 <= i < |field.s| ==> field.s[i] != '\0')
    && var file := FilePart(field.s);
       && file != ""
       && (forall i :: 0 <= i < |file| ==> file[i] != '\\')
       && !(|file| >= 2 && IsLetter(file[0]) && file[1] == ':')
       && file[0] != '/'
       && ".." !in Parts(file)
  }

  /** A member is a safe path exactly when it is a text without a NUL, and what stands before its first '#'
      is not empty, is not absolute, has no drive letter and no backslash, and has no part "..". */
  lemma {:induction false} SafePathExactly(field: Field, file: string, fragment: string)
    requires field.Text? && field.s == file + fragment && '#' !in file && (fragment == "" || fragment[0] == '#')
    ensures SafePath(field) <==>
            && '\0' !in field.s && file != "" && '\\' !in file && ".." !in Parts(file) && file[0] != '/'
            && !(|file| >= 2 && ('A' <= file[0] <= 'Z' || 'a' <= file[0] <= 'z') && file[1] == ':')
  {
    FilePartExactly(file, fragment);
  }

  lemma {:induction false} FilePartExactly(file: string, fragment: string)
    requires '#' !in file && (fragment == "" || fragment[0] == '#')
    ensures FilePart(file + fragment) == file
  {
    if file == "" {
      assert file + fragment == fragment;
    } else {
      assert file[0] in file;
      assert (file + fragment)[1..] == file[1..] + fragment;
      FilePartExactly(file[1..], fragment);
    }
  }

  // ---------- what the validator reports ----------

  datatype AncestryError =
    | AncestryRequired
    | StableIdRequired
    | DuplicateRevisionId(id: string)
    | GenesisCount(count: nat)
    | GenesisReasonRequired(id: string)
    | PreviousRevisionRequired(id: string)
    | PreviousRevisionHashMismatch(id: string)
    | HistoryShape(id: string)
    | HistoryRemoval(id: string)
    | HistoryReorder(id: string)
    | HistoryRewrite(id: string)
    | UnsafePath(id: string)
    | RevisionKind(id: string)
    | AncestryCycle(id: string)
    | AncestryOrphan(id: string)

  function EvidenceIds(records: seq<Record>): seq<Field> {
    seq(|records|, i requires 0 <= i < |records| => records[i].evidenceId)
  }

  /** How the records of a successor fail to extend those of its predecessor, if they do. */
  function HistoryErrors(id: string, old_: RecordList, new_: RecordList): seq<AncestryError> {
    if old_.NoList? || new_.NoList? then [HistoryShape(id)]
    else
      var o, n := old_.list, new_.list;
      var prefix := Front(o, n);
      if exists i :: 0 <= i < |o| && EvidenceIds(o)[i] !in EvidenceIds(n) then [HistoryRemoval(id)]
      else if EvidenceIds(prefix) != EvidenceIds(o) then [HistoryReorder(id)]
      else if prefix != o then [HistoryRewrite(id)]
      else if |n| <= |o| then [HistoryRemoval(id)]
      else []
  }

  predicate Extends(old_: RecordList, new_: RecordList) {
    old_.Records? && new_.Records? && old_.list < new_.list
  }

  /** The four history checks together say: the old records are a proper front part of the new. */
  lemma {:induction false} HistoryChecksMean(id: string, old_: RecordList, new_: RecordList)
    ensures HistoryErrors(id, old_, new_) == [] <==> Extends(old_, new_)
  {
    if Extends(old_, new_) {
      var o, n := old_.list, new_.list;
      assert n[..|o|] == o;
      forall i | 0 <= i < |o|
        ensures EvidenceIds(o)[i] in EvidenceIds(n)
      {
        assert EvidenceIds(n)[i] == EvidenceIds(o)[i];
      }
    }
  }

  predicate GoneAt(o: seq<Record>, n: seq<Record>, i: nat)
    requires i < |o|
  {
    forall k :: 0 <= k < |n| ==> n[k].evidenceId != o[i].evidenceId
  }

  predicate MovedAt(o: seq<Record>, n: seq<Record>, i: nat)
    requires i < |o|
  {
    i >= |n| || n[i].evidenceId != o[i].evidenceId
  }

  predicate ChangedAt(o: seq<Record>, n: seq<Record>, i: nat)
    requires i < |o|
  {
    i >= |n| || n[i] != o[i]
  }

  /** An old id is nowhere among the new ones; is not at its place; an old record is not at its place. */
  predicate Gone(o: seq<Record>, n: seq<Record>) { exists i :: 0 <= i < |o| && GoneAt(o, n, i) }

  predicate Moved(o: seq<Record>, n: seq<Record>) { exists i :: 0 <= i < |o| && MovedAt(o, n, i) }

  predicate Changed(o: seq<Record>, n: seq<Record>) { exists i :: 0 <= i < |o| && ChangedAt(o, n, i) }

  function Front(o: seq<Record>, n: seq<Record>): seq<Record> {
    if |n| < |o| then n else n[..|o|]
  }

  lemma {:induction false} GoneExactly(o: seq<Record>, n: seq<Record>)
    ensures (exists i :: 0 <= i < |o| && EvidenceIds(o)[i] !in EvidenceIds(n)) <==> Gone(o, n)
  {
    forall i | 0 <= i < |o|
      ensures EvidenceIds(o)[i] !in EvidenceIds(n) <==> GoneAt(o, n, i)
    {
      assert forall k :: 0 <= k < |n| ==> EvidenceIds(n)[k] == n[k].evidenceId;
    }
  }

  lemma {:induction false} MovedExactly(o: seq<Record>, n: seq<Record>)
    ensures EvidenceIds(Front(o, n)) != EvidenceIds(o) <==> Moved(o, n)
  {
    if |n| < |o| {
      assert |EvidenceIds(Front(o, n))| != |EvidenceIds(o)| && MovedAt(o, n, |n|);
    } else {
      forall i | 0 <= i < |o|
        ensures EvidenceIds(Front(o, n))[i] != EvidenceIds(o)[i] <==> MovedAt(o, n, i)
      {
      }
      if !Moved(o, n) {
        assert EvidenceIds(Front(o, n)) == EvidenceIds(o);
      }
    }
  }

  lemma {:induction false} ChangedExactly(o: seq<Record>, n: seq<Record>)
    ensures Front(o, n) != o <==> Changed(o, n)
  {
    if |n| < |o| {
      assert ChangedAt(o, n, |n|);
    } else {
      forall i | 0 <= i < |o|
        ensures Front(o, n)[i] != o[i] <==> ChangedAt(o, n, i)
      {
      }
      if !Changed(o, n) {
        assert Front(o, n) == o;
      }
    }
  }

  /** Which of them is reported: lists that are no lists; an old id that is gone; old ids that are not the
      first of the new ones; an old record that was changed; and new records that add nothing. */
  lemma {:induction false} HistoryErrorsSay(id: string, old_: RecordList, new_: RecordList)
    ensures HistoryErrors(id, old_, new_) ==
            if old_.NoList? || new_.NoList? then [HistoryShape(id)]
            else
              var o, n := old_.list, new_.list;
              if Gone(o, n) || n == o then [HistoryRemoval(id)]
              else if Moved(o, n) then [HistoryReorder(id)]
              else if Changed(o, n) then [HistoryRewrite(id)]
              else []
  {
    if old_.Records? && new_.Records? {
      var o, n := old_.list, new_.list;
      GoneExactly(o, n);
      MovedExactly(o, n);
      ChangedExactly(o, n);
      if n == o {
        assert forall i :: 0 <= i < |o| ==> !MovedAt(o, n, i) && !ChangedAt(o, n, i);
      }
      if !Changed(o, n) && |n| <= |o| {
        assert Front(o, n) == o && n == o;
      }
    }
  }

  type Index = map<string, Revision>

  /** What is reported about one indexed revision. */
  function RevisionErrors(id: string, rev: Revision, byId: Index, evidence: bool, hash: Hash): seq<AncestryError> {
    var anyPresent := !(rev.previousId.Missing? && rev.previousPath.Missing? && rev.previousSha.Missing?);
    var allPresent := !rev.previousId.Missing? && !rev.previousPath.Missing? && !rev.previousSha.Missing?;
    match rev.kind
    case Genesis => if !HasWords(rev.genesisReason) || anyPresent then [GenesisReasonRequired(id)] else []
    case Successor =>
      if !rev.genesisReason.Missing? || !allPresent then [PreviousRevisionRequired(id)]
      else
        (if !rev.previousId.Text? || rev.previousId.s !in byId then [PreviousRevisionRequired(id)]
         else
           var previous := byId[rev.previousId.s];
           (if rev.previousSha != Text(hash(previous)) then [PreviousRevisionHashMismatch(id)] else [])
           + (if evidence then HistoryErrors(id, previous.records, rev.records) else []))
        + (if !SafePath(rev.previousPath) then [UnsafePath(id)] else [])
    case OtherKind => [RevisionKind(id)]
  }

  // ---------- the declarative reading ----------

  predicate WellFormed(rev: Revision) {
    && rev.id.Text? && rev.id.s != ""
    && match rev.kind
       case Genesis =>
         HasWords(rev.genesisReason) && rev.previousId.Missing? && rev.previousPath.Missing? && rev.previousSha.Missing?
       case Successor => rev.genesisReason.Missing? && rev.previousId.Text? && SafePath(rev.previousPath)
       case OtherKind => false
  }

  /** `rev` names `previous` by id and by hash, and extends its evidence. */
  predicate Links(previous: Revision, rev: Revision, evidence: bool, hash: Hash) {
    && rev.kind.Successor?
    && rev.previousId == previous.id
    && rev.previousSha == Text(hash(previous))
    && (evidence ==> Extends(previous.records, rev.records))
  }

  ghost predicate IsChain(chain: seq<Revision>, evidence: bool, hash: Hash) {
    && chain != []
    && chain[0].kind.Genesis?
    && forall i :: 0 < i < |chain| ==> Links(chain[i - 1], chain[i], evidence, hash)
  }

  predicate DistinctIds(revs: seq<Revision>) {
    forall i, j :: 0 <= i < j < |revs| ==> revs[i].id != revs[j].id
  }

  /** The revisions are well formed and, in some order that ends with the last of the list, one
      chain that holds each of them once. */
  ghost predicate SingleChain(revs: seq<Revision>, chain: seq<Revision>, evidence: bool, hash: Hash) {
    && revs != []
    && (forall r :: r in revs ==> WellFormed(r))
    && DistinctIds(revs) && DistinctIds(chain)
    && |chain| == |revs| && (forall r :: r in chain <==> r in revs)
    && IsChain(chain, evidence, hash)
    && chain[|chain| - 1] == revs[|revs| - 1]
  }

  ghost predicate Accepted(revs: seq<Revision>, evidence: bool, hash: Hash) {
    exists chain :: SingleChain(revs, chain, evidence, hash)
  }

  // ---------- the validator ----------

  ghost predicate Indexes(byId: Index, revs: seq<Revision>) {
    && (forall id :: id in byId ==> byId[id].id == Text(id) && byId[id] in revs && id != "")
    && (forall r :: r in revs && r.id.Text? && r.id.s != "" ==> r.id.s in byId)
  }

  ghost predicate Stable(revs: seq<Revision>) {
    DistinctIds(revs) && forall r :: r in revs ==> r.id.Text? && r.id.s != ""
  }

  predicate HasId(rev: Revision) {
    rev.id.Text? && rev.id.s != ""
  }

  /** The first revision with each id. */
  function IndexOf(revs: seq<Revision>): Index {
    if revs == [] then map[]
    else
      var before, last := IndexOf(revs[..|revs| - 1]), revs[|revs| - 1];
      if HasId(last) && last.id.s !in before then before[last.id.s := last] else before
  }

  lemma {:induction false} FirstWins(revs: seq<Revision>, i: nat)
    requires i < |revs| && HasId(revs[i]) && forall k :: 0 <= k < i ==> revs[k].id != revs[i].id
    ensures revs[i].id.s in IndexOf(revs) && IndexOf(revs)[revs[i].id.s] == revs[i]
  {
    var init := revs[..|revs| - 1];
    if i < |init| {
      FirstWins(init, i);
    } else {
      NotIndexed(init, revs[i].id.s);
    }
  }

  lemma {:induction false} NotIndexed(revs: seq<Revision>, id: string)
    requires forall k :: 0 <= k < |revs| ==> revs[k].id != Text(id)
    ensures id !in IndexOf(revs)
  {
    if revs != [] {
      NotIndexed(revs[..|revs| - 1], id);
    }
  }

  predicate Twice(revs: seq<Revision>, id: string) {
    id != "" && exists i, j :: 0 <= i < j < |revs| && revs[i].id == Text(id) && revs[j].id == Text(id)
  }

  /** What is reported about the ids of a list. */
  predicate IdFault(e: AncestryError, revs: seq<Revision>) {
    match e
    case StableIdRequired => exists k :: 0 <= k < |revs| && !HasId(revs[k])
    case DuplicateRevisionId(id) => Twice(revs, id)
    case _ => false
  }

  lemma {:induction false} TwiceOneMore(revs: seq<Revision>, rev: Revision, id: string)
    ensures Twice(revs + [rev], id) <==> Twice(revs, id) || (id != "" && rev.id == Text(id) && id in IndexOf(revs))
  {
    var longer := revs + [rev];
    assert longer[|revs|] == rev && forall k :: 0 <= k < |revs| ==> longer[k] == revs[k];
    IndexedExactly(revs, id);
    if Twice(longer, id) && !Twice(revs, id) {
      var i, j :| 0 <= i < j < |longer| && longer[i].id == Text(id) && longer[j].id == Text(id);
      assert j == |revs| && revs[i].id == Text(id);
    }
    if Twice(revs, id) {
      var i, j :| 0 <= i < j < |revs| && revs[i].id == Text(id) && revs[j].id == Text(id);
      assert longer[i].id == Text(id) && longer[j].id == Text(id);
    }
    if id != "" && rev.id == Text(id) && id in IndexOf(revs) {
      var k :| 0 <= k < |revs| && revs[k].id == Text(id);
      assert longer[k].id == Text(id) && longer[|revs|].id == Text(id);
    }
  }

  lemma {:induction false} IndexedExactly(revs: seq<Revision>, id: string)
    ensures id in IndexOf(revs) <==> id != "" && exists k :: 0 <= k < |revs| && revs[k].id == Text(id)
  {
    if revs != [] {
      var init, last := revs[..|revs| - 1], revs[|revs| - 1];
      IndexedExactly(init, id);
      assert forall k :: 0 <= k < |init| ==> revs[k] == init[k];
      assert revs[|init|] == last;
      if id != "" && last.id == Text(id) {
        assert id in IndexOf(revs);
      }
    }
  }

  lemma {:induction false} IndexOfIndexes(revs: seq<Revision>)
    ensures Indexes(IndexOf(revs), revs)
  {
    if revs != [] {
      var init, last := revs[..|revs| - 1], revs[|revs| - 1];
      IndexOfIndexes(init);
      assert revs == init + [last];
    }
  }

  lemma {:induction false} IdFaultOneMore(e: AncestryError, revs: seq<Revision>, rev: Revision)
    ensures IdFault(e, revs + [rev]) <==>
            || IdFault(e, revs)
            || (e == StableIdRequired && !HasId(rev))
            || (HasId(rev) && rev.id.s in IndexOf(revs) && e == DuplicateRevisionId(rev.id.s))
  {
    match e {
      case DuplicateRevisionId(id) => TwiceOneMore(revs, rev, id);
      case StableIdRequired =>
        assert (revs + [rev])[|revs|] == rev && forall k :: 0 <= k < |revs| ==> (revs + [rev])[k] == revs[k];
      case _ =>
    }
  }

  ghost predicate ReportsIds(errors: seq<AncestryError>, revs: seq<Revision>) {
    forall e :: e in errors <==> IdFault(e, revs)
  }

  function NewIdFault(revs: seq<Revision>, rev: Revision): seq<AncestryError> {
    if !HasId(rev) then [StableIdRequired]
    else if rev.id.s in IndexOf(revs) then [DuplicateRevisionId(rev.id.s)]
    else []
  }

  lemma {:induction false} ReportsPush(errors: seq<AncestryError>, revs: seq<Revision>, rev: Revision)
    requires ReportsIds(errors, revs)
    ensures ReportsIds(errors + NewIdFault(revs, rev), revs + [rev])
  {
    forall e
      ensures e in errors + NewIdFault(revs, rev) <==> IdFault(e, revs + [rev])
    {
      IdFaultOneMore(e, revs, rev);
    }
  }

  lemma {:induction false} NoIdFault(revs: seq<Revision>)
    ensures (forall e :: !IdFault(e, revs)) <==> Stable(revs)
    ensures Stable(revs) ==> forall r :: r in revs ==> r.id.s in IndexOf(revs) && IndexOf(revs)[r.id.s] == r
  {
    if forall e :: !IdFault(e, revs) {
      assert !IdFault(StableIdRequired, revs);
      forall i, j | 0 <= i < j < |revs|
        ensures revs[i].id != revs[j].id
      {
        assert HasId(revs[i]) && HasId(revs[j]);
        assert !IdFault(DuplicateRevisionId(revs[i].id.s), revs);
      }
    }
    if Stable(revs) {
      forall i | 0 <= i < |revs|
        ensures HasId(revs[i]) && revs[i].id.s in IndexOf(revs) && IndexOf(revs)[revs[i].id.s] == revs[i]
      {
        assert revs[i] in revs;
        FirstWins(revs, i);
      }
    }
  }

  /** Index the revisions by id; a later revision with a known id is reported and left out. */
  method UniqueIndex(revs: seq<Revision>) returns (byId: Index, order: seq<string>, errors: seq<AncestryError>)
    ensures byId == IndexOf(revs) && Indexes(byId, revs)
    ensures ReportsIds(errors, revs)
    ensures errors == [] <==> Stable(revs)
    ensures errors == [] ==> forall r :: r in revs ==> r.id.s in byId && byId[r.id.s] == r
    ensures (forall id :: id in order <==> id in byId) && forall i, j :: 0 <= i < j < |order| ==> order[i] != order[j]
  {
    byId, order, errors := map[], [], [];
    for i := 0 to |revs|
      invariant byId == IndexOf(revs[..i]) && ReportsIds(errors, revs[..i])
      invariant (forall id :: id in order <==> id in byId) && forall k, j :: 0 <= k < j < |order| ==> order[k] != order[j]
    {
      var rev := revs[i];
      assert revs[..i + 1] == revs[..i] + [rev] && revs[..i + 1][..i] == revs[..i];
      ReportsPush(errors, revs[..i], rev);
      if !rev.id.Text? || rev.id.s == "" {
        errors := errors + [StableIdRequired];
      } else if rev.id.s in byId {
        errors := errors + [DuplicateRevisionId(rev.id.s)];
      } else {
        assert errors + [] == errors;
        byId := byId[rev.id.s := rev];
        order := order + [rev.id.s];
      }
    }
    assert revs[..|revs|] == revs;
    IndexOfIndexes(revs);
    NoIdFault(revs);
    if errors != [] {
      assert errors[0] in errors;
    }
  }

  /** The revision is well formed and fits the one it names. */
  ghost predicate Fits(byId: Index, rev: Revision, evidence: bool, hash: Hash) {
    && WellFormed(rev)
    && (rev.kind.Successor? ==>
          && rev.previousId.s in byId
          && rev.previousSha == Text(hash(byId[rev.previousId.s]))
          && (evidence ==> Extends(byId[rev.previousId.s].records, rev.records)))
  }

  predicate Complete(rev: Revision) {
    && rev.kind.Successor? && rev.genesisReason.Missing?
    && !rev.previousId.Missing? && !rev.previousPath.Missing? && !rev.previousSha.Missing?
  }

  /** A complete successor that names an indexed revision. */
  predicate Follows(byId: Index, rev: Revision) {
    Complete(rev) && rev.previousId.Text? && rev.previousId.s in byId
  }

  function OldRecords(byId: Index, rev: Revision): RecordList
    requires Follows(byId, rev)
  {
    byId[rev.previousId.s].records
  }

  /** What is reported about the revision with this id. */
  predicate RevisionFault(e: AncestryError, id: string, byId: Index, evidence: bool, hash: Hash)
    requires id in byId
  {
    var rev := byId[id];
    var follows := Follows(byId, rev);
    var listed := follows && evidence && OldRecords(byId, rev).Records? && rev.records.Records?;
    match e
    case GenesisReasonRequired(x) =>
      && x == id && rev.kind == Genesis
      && (!HasWords(rev.genesisReason) || rev.previousId != Missing || rev.previousPath != Missing || rev.previousSha != Missing)
    case RevisionKind(x) => x == id && rev.kind == OtherKind
    case PreviousRevisionRequired(x) => x == id && rev.kind == Successor && !follows
    case PreviousRevisionHashMismatch(x) => x == id && follows && rev.previousSha != Text(hash(byId[rev.previousId.s]))
    case UnsafePath(x) => x == id && Complete(rev) && !SafePath(rev.previousPath)
    case HistoryShape(x) => x == id && follows && evidence && (OldRecords(byId, rev).NoList? || rev.records.NoList?)
    case HistoryRemoval(x) =>
      x == id && listed && (Gone(OldRecords(byId, rev).list, rev.records.list) || rev.records == OldRecords(byId, rev))
    case HistoryReorder(x) =>
      && x == id && listed && Moved(OldRecords(byId, rev).list, rev.records.list)
      && !Gone(OldRecords(byId, rev).list, rev.records.list)
    case HistoryRewrite(x) =>
      && x == id && listed && Changed(OldRecords(byId, rev).list, rev.records.list)
      && !Moved(OldRecords(byId, rev).list, rev.records.list) && !Gone(OldRecords(byId, rev).list, rev.records.list)
    case _ => false
  }

  lemma {:induction false} SameNotMoved(o: seq<Record>)
    ensures !Moved(o, o) && !Changed(o, o)
  {
    assert forall i :: 0 <= i < |o| ==> !MovedAt(o, o, i) && !ChangedAt(o, o, i);
  }

  lemma {:induction false} HistoryFault(e: AncestryError, id: string, byId: Index, hash: Hash)
    requires id in byId && Follows(byId, byId[id])
    ensures e in HistoryErrors(id, OldRecords(byId, byId[id]), byId[id].records)
            <==> (e.HistoryShape? || e.HistoryRemoval? || e.HistoryReorder? || e.HistoryRewrite?)
                 && RevisionFault(e, id, byId, true, hash)
  {
    var old_ := OldRecords(byId, byId[id]);
    HistoryErrorsSay(id, old_, byId[id].records);
    if old_.Records? {
      SameNotMoved(old_.list);
    }
  }

  lemma {:induction false} RevisionErrorsSay(e: AncestryError, id: string, byId: Index, evidence: bool, hash: Hash)
    requires id in byId
    ensures e in RevisionErrors(id, byId[id], byId, evidence, hash) <==> RevisionFault(e, id, byId, evidence, hash)
  {
    var rev := byId[id];
    if Follows(byId, rev) {
      var a := if rev.previousSha != Text(hash(byId[rev.previousId.s])) then [PreviousRevisionHashMismatch(id)] else [];
      var b := if evidence then HistoryErrors(id, OldRecords(byId, rev), rev.records) else [];
      var c := if !SafePath(rev.previousPath) then [UnsafePath(id)] else [];
      assert RevisionErrors(id, rev, byId, evidence, hash) == a + b + c;
      assert e in a + b + c <==> e in a || e in b || e in c;
      HistoryFault(e, id, byId, hash);
    }
  }

  ghost predicate Clean(byId: Index, evidence: bool, hash: Hash) {
    forall id :: id in byId ==> Fits(byId, byId[id], evidence, hash)
  }

  /** Nothing is reported about exactly those revisions. */
  lemma {:induction false} RevisionErrorsMean(byId: Index, id: string, evidence: bool, hash: Hash)
    requires id in byId && byId[id].id == Text(id) && id != ""
    ensures RevisionErrors(id, byId[id], byId, evidence, hash) == [] <==> Fits(byId, byId[id], evidence, hash)
  {
    var rev := byId[id];
    if rev.kind.Successor? && rev.previousId.Text? && rev.previousId.s in byId {
      HistoryChecksMean(id, byId[rev.previousId.s].records, rev.records);
    }
  }

  /** The ids met when following predecessors back from the head: each step but the last continues
      from a revision that is not a genesis. */
  ghost predicate Trail(byId: Index, head: Field, trail: seq<string>) {
    && (forall i :: 0 <= i < |trail| ==> trail[i] in byId)
    && (forall i, j :: 0 <= i < j < |trail| ==> trail[i] != trail[j])
    && (trail != [] ==> head == Text(trail[0]))
    && forall i :: 0 <= i < |trail| - 1 ==> !byId[trail[i]].kind.Genesis? && byId[trail[i]].previousId == Text(trail[i + 1])
  }

  /** Where the walk goes next: nowhere after a genesis. */
  function Onward(byId: Index, head: Field, trail: seq<string>): Field
    requires forall i :: 0 <= i < |trail| ==> trail[i] in byId
  {
    if trail == [] then head
    else if byId[trail[|trail| - 1]].kind.Genesis? then Missing
    else byId[trail[|trail| - 1]].previousId
  }

  function Visited(trail: seq<string>): set<string> {
    set id | id in trail
  }

  /** A trail that cannot be continued to a new id. */
  ghost predicate Walked(byId: Index, head: Field, trail: seq<string>) {
    && Trail(byId, head, trail)
    && var next := Onward(byId, head, trail);
       !next.Text? || next.s !in byId || next.s in Visited(trail)
  }

  lemma {:induction false} TrailsAgree(byId: Index, head: Field, trail: seq<string>, trail': seq<string>, i: nat)
    requires Trail(byId, head, trail) && Trail(byId, head, trail') && i < |trail| && i < |trail'|
    ensures trail[i] == trail'[i]
  {
    if i > 0 {
      TrailsAgree(byId, head, trail, trail', i - 1);
      assert byId[trail[i - 1]].previousId == Text(trail[i - 1 + 1]) && byId[trail'[i - 1]].previousId == Text(trail'[i - 1 + 1]);
    }
  }

  lemma {:induction false} FrontAgrees(byId: Index, head: Field, trail: seq<string>, trail': seq<string>)
    requires Trail(byId, head, trail) && Trail(byId, head, trail') && |trail| <= |trail'|
    ensures trail == trail'[..|trail|]
  {
    forall i | 0 <= i < |trail|
      ensures trail[i] == trail'[i]
    {
      TrailsAgree(byId, head, trail, trail', i);
    }
  }

  lemma {:induction false} NextOfTrail(byId: Index, head: Field, trail: seq<string>, n: nat)
    requires Trail(byId, head, trail) && n < |trail|
    ensures Onward(byId, head, trail[..n]) == Text(trail[n]) && trail[n] in byId && trail[n] !in Visited(trail[..n])
  {
    if n > 0 {
      assert byId[trail[n - 1]].previousId == Text(trail[n - 1 + 1]) && !byId[trail[n - 1]].kind.Genesis?;
    }
  }

  lemma {:induction false} WalkedLonger(byId: Index, head: Field, trail: seq<string>, trail': seq<string>)
    requires Walked(byId, head, trail) && Walked(byId, head, trail')
    ensures |trail'| <= |trail|
  {
    if |trail| < |trail'| {
      FrontAgrees(byId, head, trail, trail');
      NextOfTrail(byId, head, trail', |trail|);
    }
  }

  /** There is one. */
  lemma {:induction false} WalkedOnce(byId: Index, head: Field, trail: seq<string>, trail': seq<string>)
    requires Walked(byId, head, trail) && Walked(byId, head, trail')
    ensures trail == trail'
  {
    WalkedLonger(byId, head, trail, trail');
    WalkedLonger(byId, head, trail', trail);
    FrontAgrees(byId, head, trail, trail');
    assert trail'[..|trail'|] == trail';
  }

  method WalkBack(byId: Index, head: Field) returns (visited: set<string>, errors: seq<AncestryError>, ghost trail: seq<string>)
    ensures Walked(byId, head, trail) && visited == Visited(trail)
    ensures errors == [] || (Onward(byId, head, trail).Text? && errors == [AncestryCycle(Onward(byId, head, trail).s)])
    ensures errors != [] <==> Onward(byId, head, trail).Text? && Onward(byId, head, trail).s in visited
    ensures errors == [] ==> !Onward(byId, head, trail).Text? || Onward(byId, head, trail).s !in byId
  {
    visited, errors, trail := {}, [], [];
    var current := head;
    while current.Text? && current.s in byId
      invariant Trail(byId, head, trail) && visited == Visited(trail)
      invariant current == Onward(byId, head, trail)
      invariant errors == []
      decreases byId.Keys - visited
    {
      if current.s in visited {
        errors := [AncestryCycle(current.s)];
        break;
      }
      ghost var before := byId.Keys - visited;
      visited := visited + {current.s};
      trail := trail + [current.s];
      assert current.s in before && byId.Keys - visited == before - {current.s};
      if byId[current.s].kind.Genesis? {
        break;
      }
      current := byId[current.s].previousId;
    }
  }

  function GenesisIds(byId: Index): set<string> {
    set id | id in byId && byId[id].kind.Genesis?
  }

  /** What is reported about a list that is not empty: its ids, its genesis revisions, each first revision
      of an id, a walk from the last revision that comes back to an id, and ids that this walk misses. */
  ghost predicate Reported(e: AncestryError, revs: seq<Revision>, evidence: bool, hash: Hash)
    requires revs != []
  {
    var byId, head := IndexOf(revs), revs[|revs| - 1].id;
    || IdFault(e, revs)
    || (e == GenesisCount(|GenesisIds(byId)|) && |GenesisIds(byId)| != 1)
    || (exists id :: id in byId && RevisionFault(e, id, byId, evidence, hash))
    || (e.AncestryCycle? && exists trail :: Walked(byId, head, trail) && Onward(byId, head, trail) == Text(e.id) && e.id in trail)
    || (e.AncestryOrphan? && e.id in byId && exists trail :: Walked(byId, head, trail) && e.id !in trail)
  }

  /** `validate_revision_ancestry`. */
  method ValidateRevisionAncestry(revs: seq<Revision>, evidence: bool, hash: Hash) returns (errors: seq<AncestryError>)
    ensures errors == [] <==> Accepted(revs, evidence, hash)
    ensures if revs == [] then errors == [AncestryRequired]
            else forall e :: e in errors <==> Reported(e, revs, evidence, hash)
  {
    if |revs| == 0 {
      return [AncestryRequired];
    }
    var byId, order;
    byId, order, errors := UniqueIndex(revs);
    ghost var ids := errors;
    var genesisIds := GenesisIds(byId);
    if |genesisIds| != 1 {
      errors := errors + [GenesisCount(|genesisIds|)];
    }
    ghost var index := errors;
    var each := EachRevision(byId, order, evidence, hash);
    var visited, cycle;
    ghost var trail;
    visited, cycle, trail := WalkBack(byId, revs[|revs| - 1].id);
    var orphans := Orphans(byId, order, visited);
    Exactly(revs, byId, trail, evidence, hash, errors, each, cycle, orphans);
    errors := errors + each + cycle + orphans;
    forall e
      ensures e in errors <==> Reported(e, revs, evidence, hash)
    {
      ReportedExactly(e, revs, order, trail, evidence, hash, ids, index, each, cycle, orphans);
    }
  }

  lemma {:induction false} FaultAnywhere(e: AncestryError, byId: Index, order: seq<string>, evidence: bool, hash: Hash)
    requires forall id :: id in order <==> id in byId
    ensures SomeFault(e, byId, order, evidence, hash) <==> exists id :: id in byId && RevisionFault(e, id, byId, evidence, hash)
  {
    if id :| id in byId && RevisionFault(e, id, byId, evidence, hash) {
      assert id in order;
      var k :| 0 <= k < |order| && order[k] == id;
      assert RevisionFault(e, order[k], byId, evidence, hash);
    }
    if SomeFault(e, byId, order, evidence, hash) {
      var k :| 0 <= k < |order| && RevisionFault(e, order[k], byId, evidence, hash);
      assert order[k] in order;
    }
  }

  lemma {:induction false} ReportedExactly(
      e: AncestryError, revs: seq<Revision>, order: seq<string>, trail: seq<string>, evidence: bool, hash: Hash,
      ids: seq<AncestryError>, index: seq<AncestryError>, each: seq<AncestryError>, cycle: seq<AncestryError>,
      orphans: seq<AncestryError>)
    requires revs != [] && (forall id :: id in order <==> id in IndexOf(revs))
    requires e in ids <==> IdFault(e, revs)
    requires var n := |GenesisIds(IndexOf(revs))|; index == if n != 1 then ids + [GenesisCount(n)] else ids
    requires e in each <==> SomeFault(e, IndexOf(revs), order, evidence, hash)
    requires Walked(IndexOf(revs), revs[|revs| - 1].id, trail)
    requires var next := Onward(IndexOf(revs), revs[|revs| - 1].id, trail);
             cycle == if next.Text? && next.s in Visited(trail) then [AncestryCycle(next.s)] else []
    requires e in orphans <==> e.AncestryOrphan? && e.id in IndexOf(revs) && e.id !in Visited(trail)
    ensures e in index + each + cycle + orphans <==> Reported(e, revs, evidence, hash)
  {
    var byId, head := IndexOf(revs), revs[|revs| - 1].id;
    assert e in index + each + cycle + orphans <==> e in index || e in each || e in cycle || e in orphans;
    FaultAnywhere(e, byId, order, evidence, hash);
    forall trail' | Walked(byId, head, trail')
      ensures trail' == trail
    {
      WalkedOnce(byId, head, trail, trail');
    }
  }

  ghost predicate SomeFault(e: AncestryError, byId: Index, ids: seq<string>, evidence: bool, hash: Hash)
    requires forall id :: id in ids ==> id in byId
  {
    exists k :: 0 <= k < |ids| && RevisionFault(e, ids[k], byId, evidence, hash)
  }

  lemma {:induction false} SomeFaultOneMore(e: AncestryError, byId: Index, ids: seq<string>, id: string, evidence: bool, hash: Hash)
    requires id in byId && forall x :: x in ids ==> x in byId
    ensures SomeFault(e, byId, ids + [id], evidence, hash)
            <==> SomeFault(e, byId, ids, evidence, hash) || e in RevisionErrors(id, byId[id], byId, evidence, hash)
  {
    RevisionErrorsSay(e, id, byId, evidence, hash);
    var longer := ids + [id];
    assert longer[|ids|] == id && forall k :: 0 <= k < |ids| ==> longer[k] == ids[k];
    if SomeFault(e, byId, ids, evidence, hash) {
      var k :| 0 <= k < |ids| && RevisionFault(e, ids[k], byId, evidence, hash);
      assert RevisionFault(e, longer[k], byId, evidence, hash);
    }
  }

  /** The two readings of the errors agree: none is reported exactly when every revision fits. */
  lemma {:induction false} NoFaultIsClean(byId: Index, order: seq<string>, errors: seq<AncestryError>, evidence: bool, hash: Hash)
    requires forall id :: id in byId ==> byId[id].id == Text(id) && id != ""
    requires forall id :: id in order <==> id in byId
    requires forall e :: e in errors <==> SomeFault(e, byId, order, evidence, hash)
    ensures errors == [] <==> Clean(byId, evidence, hash)
  {
    forall id | id in byId
      ensures Fits(byId, byId[id], evidence, hash) <==> forall e :: !RevisionFault(e, id, byId, evidence, hash)
    {
      RevisionErrorsMean(byId, id, evidence, hash);
      forall e
        ensures RevisionFault(e, id, byId, evidence, hash) <==> e in RevisionErrors(id, byId[id], byId, evidence, hash)
      {
        RevisionErrorsSay(e, id, byId, evidence, hash);
      }
      var es := RevisionErrors(id, byId[id], byId, evidence, hash);
      if es != [] {
        assert es[0] in es;
      }
    }
    if errors == [] {
      forall id | id in byId
        ensures Fits(byId, byId[id], evidence, hash)
      {
        var k :| 0 <= k < |order| && order[k] == id;
        forall e
          ensures !RevisionFault(e, id, byId, evidence, hash)
        {
          assert e !in errors;
        }
      }
    } else {
      assert errors[0] in errors;
      var k :| 0 <= k < |order| && RevisionFault(errors[0], order[k], byId, evidence, hash);
      assert order[k] in order;
    }
  }

  method EachRevision(byId: Index, order: seq<string>, evidence: bool, hash: Hash) returns (errors: seq<AncestryError>)
    requires forall id :: id in byId ==> byId[id].id == Text(id) && id != ""
    requires forall id :: id in order <==> id in byId
    ensures forall e :: e in errors <==> SomeFault(e, byId, order, evidence, hash)
    ensures errors == [] <==> Clean(byId, evidence, hash)
  {
    errors := [];
    for i := 0 to |order|
      invariant forall e :: e in errors <==> SomeFault(e, byId, order[..i], evidence, hash)
    {
      var found := RevisionErrors(order[i], byId[order[i]], byId, evidence, hash);
      assert order[..i + 1] == order[..i] + [order[i]];
      forall e
        ensures SomeFault(e, byId, order[..i + 1], evidence, hash) <==> e in errors || e in found
      {
        SomeFaultOneMore(e, byId, order[..i], order[i], evidence, hash);
      }
      errors := errors + found;
    }
    assert order[..|order|] == order;
    NoFaultIsClean(byId, order, errors, evidence, hash);
  }

  method Orphans(byId: Index, order: seq<string>, visited: set<string>) returns (errors: seq<AncestryError>)
    requires visited <= byId.Keys && forall id :: id in order <==> id in byId
    ensures forall e :: e in errors <==> e.AncestryOrphan? && e.id in byId && e.id !in visited
    ensures errors == [] <==> visited == byId.Keys
  {
    errors := [];
    for i := 0 to |order|
      invariant forall e :: e in errors <==> e.AncestryOrphan? && e.id in order[..i] && e.id !in visited
    {
      if order[i] !in visited {
        errors := errors + [AncestryOrphan(order[i])];
      }
    }
    assert order[..|order|] == order;
    if errors == [] {
      forall id | id in byId
        ensures id in visited
      {
        assert AncestryOrphan(id) !in errors;
      }
    } else {
      assert errors[0] in errors;
    }
  }

  // ---------- why that is exact ----------

  lemma {:induction false} Exactly(revs: seq<Revision>, byId: Index, trail: seq<string>, evidence: bool, hash: Hash,
                index: seq<AncestryError>, each: seq<AncestryError>, cycle: seq<AncestryError>, orphans: seq<AncestryError>)
    requires revs != [] && Indexes(byId, revs)
    requires index == [] <==> Stable(revs) && |GenesisIds(byId)| == 1
    requires Stable(revs) ==> forall r :: r in revs ==> r.id.s in byId && byId[r.id.s] == r
    requires each == [] <==> Clean(byId, evidence, hash)
    requires Trail(byId, revs[|revs| - 1].id, trail)
    requires cycle != [] <==> var next := Onward(byId, revs[|revs| - 1].id, trail); next.Text? && next.s in Visited(trail)
    requires cycle == [] ==> var next := Onward(byId, revs[|revs| - 1].id, trail); !next.Text? || next.s !in byId
    requires orphans == [] <==> Visited(trail) == byId.Keys
    ensures index + each + cycle + orphans == [] <==> Accepted(revs, evidence, hash)
  {
    if index + each + cycle + orphans == [] {
      var chain := AcceptedChain(revs, byId, trail, evidence, hash);
    }
    if chain :| SingleChain(revs, chain, evidence, hash) {
      ChainAccepted(revs, byId, trail, evidence, hash, chain);
    }
  }

  /** The revisions of a trail, oldest first. */
  function Backwards(byId: Index, trail: seq<string>): seq<Revision>
    requires forall i :: 0 <= i < |trail| ==> trail[i] in byId
  {
    seq(|trail|, i requires 0 <= i < |trail| => byId[trail[|trail| - 1 - i]])
  }

  lemma {:induction false} BackwardsCovers(revs: seq<Revision>, byId: Index, head: Field, trail: seq<string>)
    requires Indexes(byId, revs) && Stable(revs) && Trail(byId, head, trail) && Visited(trail) == byId.Keys
    requires forall r :: r in revs ==> r.id.s in byId && byId[r.id.s] == r
    ensures var chain := Backwards(byId, trail);
            DistinctIds(chain) && |chain| == |revs| && forall r :: r in chain <==> r in revs
  {
    var chain := Backwards(byId, trail);
    forall i | 0 <= i < |chain|
      ensures chain[i].id == Text(trail[|trail| - 1 - i]) && chain[i] in revs
    {
    }
    forall r | r in revs
      ensures r in chain
    {
      assert r.id.s in Visited(trail);
      var i :| 0 <= i < |trail| && trail[i] == r.id.s;
      assert chain[|trail| - 1 - i] == r;
    }
    SameCount(revs, chain);
  }

  lemma {:induction false} BackwardsLinks(revs: seq<Revision>, byId: Index, head: Field, trail: seq<string>, evidence: bool, hash: Hash)
    requires Indexes(byId, revs) && Trail(byId, head, trail) && trail != []
    requires Clean(byId, evidence, hash)
    requires var next := Onward(byId, head, trail); !next.Text? || next.s !in byId
    ensures IsChain(Backwards(byId, trail), evidence, hash)
  {
    var chain := Backwards(byId, trail);
    forall i | 0 < i < |chain|
      ensures Links(chain[i - 1], chain[i], evidence, hash)
    {
      var at := |trail| - 1 - i;
      assert byId[trail[at]].previousId == Text(trail[at + 1]);
      assert Fits(byId, byId[trail[at]], evidence, hash);
    }
    assert Fits(byId, byId[trail[|trail| - 1]], evidence, hash);
  }

  lemma {:induction false} AcceptedChain(revs: seq<Revision>, byId: Index, trail: seq<string>, evidence: bool, hash: Hash)
      returns (chain: seq<Revision>)
    requires revs != [] && Indexes(byId, revs) && Stable(revs)
    requires forall r :: r in revs ==> r.id.s in byId && byId[r.id.s] == r
    requires Clean(byId, evidence, hash)
    requires Trail(byId, revs[|revs| - 1].id, trail) && Visited(trail) == byId.Keys
    requires var next := Onward(byId, revs[|revs| - 1].id, trail); !next.Text? || next.s !in byId
    ensures SingleChain(revs, chain, evidence, hash)
  {
    chain := Backwards(byId, trail);
    var head := revs[|revs| - 1];
    assert head in revs;
    assert head.id.s in Visited(trail);
    forall r | r in revs
      ensures WellFormed(r)
    {
      assert Fits(byId, byId[r.id.s], evidence, hash);
    }
    BackwardsCovers(revs, byId, head.id, trail);
    BackwardsLinks(revs, byId, head.id, trail, evidence, hash);
  }

  lemma {:induction false} SameCount(revs: seq<Revision>, chain: seq<Revision>)
    requires DistinctIds(revs) && DistinctIds(chain)
    requires forall r :: r in chain <==> r in revs
    ensures |chain| == |revs|
  {
    Unrepeated(revs);
    Unrepeated(chain);
    assert (set r | r in revs) == (set r | r in chain);
  }

  lemma {:induction false} Unrepeated(revs: seq<Revision>)
    requires DistinctIds(revs)
    ensures |set r | r in revs| == |revs|
  {
    if revs != [] {
      var init, last := revs[..|revs| - 1], revs[|revs| - 1];
      Unrepeated(init);
      assert (set r | r in revs) == (set r | r in init) + {last};
      assert last !in init;
    }
  }

  /** Walking back along a chain meets its revisions one by one and stops at the genesis. */
  lemma {:induction false} TrailFollowsChain(revs: seq<Revision>, byId: Index, trail: seq<string>, evidence: bool, hash: Hash,
                          chain: seq<Revision>, i: nat)
    requires SingleChain(revs, chain, evidence, hash) && Indexes(byId, revs)
    requires forall r :: r in revs ==> r.id.s in byId && byId[r.id.s] == r
    requires Trail(byId, revs[|revs| - 1].id, trail) && i < |trail|
    ensures i < |chain| && chain[|chain| - 1 - i].id == Text(trail[i])
    ensures byId[trail[i]] == chain[|chain| - 1 - i]
  {
    if i > 0 {
      TrailFollowsChain(revs, byId, trail, evidence, hash, chain, i - 1);
      assert !byId[trail[i - 1]].kind.Genesis? && byId[trail[i - 1]].previousId == Text(trail[i - 1 + 1]);
      assert Links(chain[|chain| - 1 - i], chain[|chain| - i], evidence, hash);
    }
    assert chain[|chain| - 1 - i] in chain;
  }

  lemma {:induction false} ChainIsClean(revs: seq<Revision>, byId: Index, evidence: bool, hash: Hash, chain: seq<Revision>)
    requires SingleChain(revs, chain, evidence, hash) && Indexes(byId, revs)
    requires forall r :: r in revs ==> r.id.s in byId && byId[r.id.s] == r
    ensures Clean(byId, evidence, hash)
  {
    forall id | id in byId
      ensures Fits(byId, byId[id], evidence, hash)
    {
      var k :| 0 <= k < |chain| && chain[k] == byId[id];
      if k > 0 {
        assert Links(chain[k - 1], chain[k], evidence, hash);
        assert chain[k - 1] in chain;
      }
    }
  }

  lemma {:induction false} TrailCovers(revs: seq<Revision>, byId: Index, trail: seq<string>, evidence: bool, hash: Hash,
                                       chain: seq<Revision>)
    requires SingleChain(revs, chain, evidence, hash) && Indexes(byId, revs)
    requires forall r :: r in revs ==> r.id.s in byId && byId[r.id.s] == r
    requires Trail(byId, revs[|revs| - 1].id, trail) && |trail| == |chain|
    ensures Visited(trail) == byId.Keys
  {
    forall id | id in byId
      ensures id in trail
    {
      var k :| 0 <= k < |chain| && chain[k] == byId[id];
      TrailFollowsChain(revs, byId, trail, evidence, hash, chain, |chain| - 1 - k);
    }
    assert forall id :: id in trail ==> id in byId;
  }

  lemma {:induction false} ChainAccepted(revs: seq<Revision>, byId: Index, trail: seq<string>, evidence: bool, hash: Hash, chain: seq<Revision>)
    requires SingleChain(revs, chain, evidence, hash) && Indexes(byId, revs)
    requires forall r :: r in revs ==> r.id.s in byId && byId[r.id.s] == r
    requires Trail(byId, revs[|revs| - 1].id, trail)
    requires var next := Onward(byId, revs[|revs| - 1].id, trail);
             next.Text? && next.s in byId ==> next.s in Visited(trail)
    ensures Stable(revs) && |GenesisIds(byId)| == 1
    ensures Clean(byId, evidence, hash)
    ensures Visited(trail) == byId.Keys
    ensures Onward(byId, revs[|revs| - 1].id, trail) == Missing
  {
    ChainIsClean(revs, byId, evidence, hash, chain);
    TrailEnds(revs, byId, trail, evidence, hash, chain);
    TrailCovers(revs, byId, trail, evidence, hash, chain);
    OneGenesis(byId, revs, chain, evidence, hash);
  }

  /** From a trail that ends at a successor in the chain the walk goes on to its predecessor. */
  lemma {:induction false} GoesOnward(byId: Index, head: Field, trail: seq<string>, previous: Revision, evidence: bool, hash: Hash)
    requires Trail(byId, head, trail) && trail != []
    requires Links(previous, byId[trail[|trail| - 1]], evidence, hash)
    ensures Onward(byId, head, trail) == previous.id
  {
  }

  lemma {:induction false} TrailEnds(revs: seq<Revision>, byId: Index, trail: seq<string>, evidence: bool, hash: Hash, chain: seq<Revision>)
    requires SingleChain(revs, chain, evidence, hash) && Indexes(byId, revs)
    requires forall r :: r in revs ==> r.id.s in byId && byId[r.id.s] == r
    requires Trail(byId, revs[|revs| - 1].id, trail)
    requires var next := Onward(byId, revs[|revs| - 1].id, trail);
             next.Text? && next.s in byId ==> next.s in Visited(trail)
    ensures |trail| == |chain| && byId[trail[|trail| - 1]] == chain[0]
  {
    var head := revs[|revs| - 1];
    assert head in revs;
    assert trail != [];
    var last := |trail| - 1;
    TrailFollowsChain(revs, byId, trail, evidence, hash, chain, last);
    if last < |chain| - 1 {
      var k := |chain| - 1 - last;
      var previous := chain[k - 1];
      assert Links(previous, chain[k], evidence, hash);
      GoesOnward(byId, head.id, trail, previous, evidence, hash);
      assert previous in chain;
      var i := PlaceInTrail(trail, previous.id.s);
      TrailFollowsChain(revs, byId, trail, evidence, hash, chain, i);
    }
  }

  lemma {:induction false} PlaceInTrail(trail: seq<string>, id: string) returns (i: nat)
    requires id in Visited(trail)
    ensures i < |trail| && trail[i] == id
  {
    i :| 0 <= i < |trail| && trail[i] == id;
  }

  lemma {:induction false} OneGenesis(byId: Index, revs: seq<Revision>, chain: seq<Revision>, evidence: bool, hash: Hash)
    requires SingleChain(revs, chain, evidence, hash) && Indexes(byId, revs)
    requires forall r :: r in revs ==> r.id.s in byId && byId[r.id.s] == r
    ensures |GenesisIds(byId)| == 1
  {
    assert chain[0] in chain;
    var first := chain[0].id.s;
    forall k | 0 < k < |chain|
      ensures chain[k].kind.Successor?
    {
      assert Links(chain[k - 1], chain[k], evidence, hash);
    }
    forall id | id in GenesisIds(byId)
      ensures id == first
    {
      var k :| 0 <= k < |chain| && chain[k] == byId[id];
    }
    assert GenesisIds(byId) == {first};
  }

  // ---------- what acceptance buys ----------

  /** A chain is determined by its head: nothing behind an accepted head can be changed. */
  lemma {:induction false} HeadDeterminesChain(a: seq<Revision>, b: seq<Revision>, evidence: bool, hash: Hash)
    requires Injective(hash) && IsChain(a, evidence, hash) && IsChain(b, evidence, hash)
    requires a[|a| - 1] == b[|b| - 1]
    ensures a == b
    decreases |a|
  {
    var head := a[|a| - 1];
    if |a| > 1 {
      assert Links(a[|a| - 2], a[|a| - 1], evidence, hash);
    }
    if |b| > 1 {
      assert Links(b[|b| - 2], b[|b| - 1], evidence, hash);
    }
    if |a| > 1 && |b| > 1 {
      var a', b' := a[..|a| - 1], b[..|b| - 1];
      assert hash(a'[|a'| - 1]) == hash(b'[|b'| - 1]);
      ChainInit(a, evidence, hash);
      ChainInit(b, evidence, hash);
      HeadDeterminesChain(a', b', evidence, hash);
      assert a == a' + [head] && b == b' + [head];
    }
  }

  lemma {:induction false} ChainInit(chain: seq<Revision>, evidence: bool, hash: Hash)
    requires IsChain(chain, evidence, hash) && |chain| > 1
    ensures IsChain(chain[..|chain| - 1], evidence, hash)
  {
    var init := chain[..|chain| - 1];
    forall i | 0 < i < |init|
      ensures Links(init[i - 1], init[i], evidence, hash)
    {
      assert Links(chain[i - 1], chain[i], evidence, hash);
    }
  }

  /** Two accepted lists whose heads have the same hash hold the same revisions, linked in the same
      order, whatever the order of the lists. */
  lemma {:induction false} SameHeadSameHistory(revs: seq<Revision>, revs': seq<Revision>, evidence: bool, hash: Hash) returns (chain: seq<Revision>)
    requires Injective(hash) && Accepted(revs, evidence, hash) && Accepted(revs', evidence, hash)
    requires hash(revs[|revs| - 1]) == hash(revs'[|revs'| - 1])
    ensures SingleChain(revs, chain, evidence, hash) && SingleChain(revs', chain, evidence, hash)
    ensures multiset(revs) == multiset(revs')
  {
    chain :| SingleChain(revs, chain, evidence, hash);
    var chain' :| SingleChain(revs', chain', evidence, hash);
    HeadDeterminesChain(chain, chain', evidence, hash);
    SameMembers(revs, chain);
    SameMembers(revs', chain);
  }

  lemma {:induction false} SameMembers(a: seq<Revision>, b: seq<Revision>)
    requires DistinctIds(a) && DistinctIds(b) && forall r :: r in a <==> r in b
    ensures multiset(a) == multiset(b)
  {
    forall r
      ensures multiset(a)[r] == multiset(b)[r]
    {
      CountOnce(a, r);
      CountOnce(b, r);
    }
  }

  lemma {:induction false} CountOnce(a: seq<Revision>, r: Revision)
    requires DistinctIds(a)
    ensures multiset(a)[r] == if r in a then 1 else 0
  {
    if a != [] {
      var init, last := a[..|a| - 1], a[|a| - 1];
      CountOnce(init, r);
      assert a == init + [last];
      assert last !in init;
    }
  }

  /** In an accepted evidence family the records of any ancestor are a proper front part of the
      records of any descendant. */
  lemma {:induction false} HistoryIsAppendOnly(chain: seq<Revision>, hash: Hash, i: nat, j: nat)
    requires IsChain(chain, true, hash) && i < j < |chain|
    ensures chain[i].records.Records? && chain[j].records.Records?
    ensures chain[i].records.list < chain[j].records.list
    decreases j - i
  {
    assert Links(chain[j - 1], chain[j], true, hash);
    if i < j - 1 {
      HistoryIsAppendOnly(chain, hash, i, j - 1);
    }
  }

  // ---------- building a successor ----------

  /** `_successor_revision`: everything is copied, then the identity, the links and the time stamps
      are replaced. */
  function SuccessorRevision(previous: Revision, id: string, path: string, stamped: nat, hash: Hash): Revision {
    previous.(id := Text(id), kind := Successor, genesisReason := Missing, previousId := previous.id,
              previousPath := Text(path), previousSha := Text(hash(previous)), body := stamped)
  }

  /** A successor of an accepted head, with records `records` written into it afterwards, is accepted
      under a new id and a safe path exactly when, in the evidence family, it adds records. */
  lemma {:induction false} SuccessorIsAccepted(revs: seq<Revision>, id: string, path: string, stamped: nat, records: RecordList,
                            evidence: bool, hash: Hash)
    requires Accepted(revs, evidence, hash)
    requires id != "" && SafePath(Text(path)) && forall r :: r in revs ==> r.id != Text(id)
    ensures var head := revs[|revs| - 1];
            var next := SuccessorRevision(head, id, path, stamped, hash).(records := records);
            Accepted(revs + [next], evidence, hash) <==> (evidence ==> Extends(head.records, records))
  {
    var head := revs[|revs| - 1];
    var next := SuccessorRevision(head, id, path, stamped, hash).(records := records);
    var chain :| SingleChain(revs, chain, evidence, hash);
    assert WellFormed(head) by { assert head in revs; }
    if evidence ==> Extends(head.records, records) {
      ChainGrows(revs, chain, next, evidence, hash);
    }
    if Accepted(revs + [next], evidence, hash) {
      var longer :| SingleChain(revs + [next], longer, evidence, hash);
      var n := |longer|;
      assert longer[n - 1] == next && n > 1;
      assert Links(longer[n - 2], longer[n - 1], evidence, hash);
      assert longer[n - 2] in longer && head in revs;
      SameId(revs + [next], longer[n - 2], head);
    }
  }

  lemma {:induction false} SameId(revs: seq<Revision>, a: Revision, b: Revision)
    requires DistinctIds(revs) && a in revs && b in revs && a.id == b.id
    ensures a == b
  {
    var i :| 0 <= i < |revs| && revs[i] == a;
    var j :| 0 <= j < |revs| && revs[j] == b;
  }

  lemma {:induction false} ChainGrows(revs: seq<Revision>, chain: seq<Revision>, next: Revision, evidence: bool, hash: Hash)
    requires SingleChain(revs, chain, evidence, hash)
    requires WellFormed(next) && Links(revs[|revs| - 1], next, evidence, hash)
    requires forall r :: r in revs ==> r.id != next.id
    ensures SingleChain(revs + [next], chain + [next], evidence, hash)
  {
    var longer := chain + [next];
    forall i | 0 < i < |longer|
      ensures Links(longer[i - 1], longer[i], evidence, hash)
    {
      if i < |chain| {
        assert Links(chain[i - 1], chain[i], evidence, hash);
      }
    }
    assert forall i :: 0 <= i < |chain| ==> chain[i] in revs;
  }

  // ---------- loading a chain from its head ----------

  /** What a path leads to. Paths that cannot be read are absent. */
  datatype Document = Object(rev: Revision) | NotObject

  datatype Loaded = LoadError | Loaded(chain: seq<Revision>)

  function IdsIn(store: map<string, Document>): set<string> {
    set path | path in store && store[path].Object? && store[path].rev.id.Text? :: store[path].rev.id.s
  }

  /** The revision that a predecessor path leads to. Only its file part has to be safe for that. */
  function Predecessor(store: map<string, Document>, rev: Revision): Option<Revision>
    requires rev.previousPath.Text?
  {
    var path := rev.previousPath.s;
    if SafePath(Text(FilePart(path))) && path in store && store[path].Object? then Some(store[path].rev) else None
  }

  /** A path leads to a revision exactly when the store has an object under the whole path, and its file
      part is safe. */
  lemma {:induction false} PredecessorExactly(store: map<string, Document>, rev: Revision, previous: Revision, file: string, fragment: string)
    requires rev.previousPath == Text(file + fragment) && '#' !in file && (fragment == "" || fragment[0] == '#')
    ensures Predecessor(store, rev) == Some(previous) <==>
            && '\0' !in file && file != "" && '\\' !in file && ".." !in Parts(file) && file[0] != '/'
            && !(|file| >= 2 && ('A' <= file[0] <= 'Z' || 'a' <= file[0] <= 'z') && file[1] == ':')
            && file + fragment in store && store[file + fragment] == Object(previous)
  {
    FilePartExactly(file, fragment);
    assert file + "" == file;
    SafePathExactly(Text(file), file, "");
  }

  predicate Previous(store: map<string, Document>, rev: Revision, previous: Revision) {
    !rev.kind.Genesis? && rev.previousPath.Text? && Predecessor(store, rev) == Some(previous)
  }

  /** The revisions met from the head by following predecessor paths, newest last. */
  ghost predicate Followed(store: map<string, Document>, head: Revision, chain: seq<Revision>) {
    && (chain != [] ==> chain[|chain| - 1] == head)
    && (forall i :: 0 <= i < |chain| ==> chain[i].id.Text?)
    && forall i :: 0 < i < |chain| ==> Previous(store, chain[i], chain[i - 1])
  }

  /** The ids that may still be met for the first time. */
  function Unseen(store: map<string, Document>, current: Revision, seen: set<string>): set<string> {
    IdsIn(store) + (if current.id.Text? then {current.id.s} else {}) - seen
  }

  lemma {:induction false} FewerUnseen(store: map<string, Document>, current: Revision, next: Revision, seen: set<string>)
    requires current.id.Text? && current.id.s !in seen && Previous(store, current, next)
    ensures Unseen(store, next, seen + {current.id.s}) < Unseen(store, current, seen)
  {
    assert next.id.Text? ==> next.id.s in IdsIn(store);
    assert current.id.s in Unseen(store, current, seen);
  }

  /** What the loader collects from `current` on, oldest first: it stops at a genesis, at a dead end,
      or with the first revision whose id was already seen, which it keeps. */
  function LoadFrom(store: map<string, Document>, current: Revision, seen: set<string>): Loaded
    decreases Unseen(store, current, seen)
  {
    if !current.id.Text? then Loaded([])
    else if current.id.s in seen || current.kind.Genesis? || !current.previousPath.Text? then Loaded([current])
    else match Predecessor(store, current)
      case None => LoadError
      case Some(next) =>
        FewerUnseen(store, current, next, seen);
        Onto(LoadFrom(store, next, seen + {current.id.s}), [current])
  }

  function Onto(older: Loaded, newer: seq<Revision>): Loaded {
    if older.LoadError? then LoadError else Loaded(older.chain + newer)
  }

  function Load(store: map<string, Document>, head: Document): Loaded {
    if head.NotObject? then LoadError else LoadFrom(store, head.rev, {})
  }

  /** `_revision_chain_from_head`. */
  method LoadChain(store: map<string, Document>, head: Document) returns (r: Loaded)
    ensures r == Load(store, head)
  {
    if head.NotObject? {
      return LoadError;
    }
    var seen: set<string> := {};
    var reverse: seq<Revision> := [];
    var current := head.rev;
    while true
      invariant Load(store, head) == Onto(LoadFrom(store, current, seen), Reversed(reverse))
      decreases Unseen(store, current, seen)
    {
      if !current.id.Text? {
        return Loaded(Reversed(reverse));
      }
      assert Reversed(reverse + [current]) == [current] + Reversed(reverse);
      if current.id.s in seen {
        return Loaded(Reversed(reverse + [current]));
      }
      ghost var before := seen;
      seen := seen + {current.id.s};
      reverse := reverse + [current];
      if current.kind.Genesis? || !current.previousPath.Text? {
        return Loaded(Reversed(reverse));
      }
      var path := current.previousPath.s;
      if !SafePath(Text(FilePart(path))) || path !in store || store[path].NotObject? {
        return LoadError;
      }
      FewerUnseen(store, current, store[path].rev, before);
      OntoTwice(LoadFrom(store, store[path].rev, seen), current, reverse);
      current := store[path].rev;
    }
  }

  function Reversed(revs: seq<Revision>): seq<Revision> {
    seq(|revs|, i requires 0 <= i < |revs| => revs[|revs| - 1 - i])
  }

  lemma {:induction false} OntoTwice(older: Loaded, current: Revision, reverse: seq<Revision>)
    requires reverse != [] && reverse[|reverse| - 1] == current
    ensures Onto(Onto(older, [current]), Reversed(reverse[..|reverse| - 1])) == Onto(older, Reversed(reverse))
  {
    var init := reverse[..|reverse| - 1];
    assert Reversed(reverse) == [current] + Reversed(init);
    if older.Loaded? {
      assert older.chain + [current] + Reversed(init) == older.chain + Reversed(reverse);
    }
  }

  // ---------- what loading means ----------

  ghost predicate UnseenIds(chain: seq<Revision>, seen: set<string>) {
    forall i :: 0 <= i < |chain| ==> chain[i].id.Text? && chain[i].id.s !in seen
  }

  /** A trail of the loader: it follows predecessor paths from `head` and meets no id twice. */
  ghost predicate PathTrail(store: map<string, Document>, head: Revision, chain: seq<Revision>, seen: set<string>) {
    chain != [] && Followed(store, head, chain) && DistinctIds(chain) && UnseenIds(chain, seen)
  }

  /** The path of this revision has to be followed and leads nowhere. */
  predicate Breaks(store: map<string, Document>, rev: Revision) {
    !rev.kind.Genesis? && rev.previousPath.Text? && Predecessor(store, rev).None?
  }

  /** Nothing more is followed from this revision. */
  predicate Ends(store: map<string, Document>, rev: Revision) {
    || rev.kind.Genesis? || !rev.previousPath.Text?
    || (Predecessor(store, rev).Some? && !Predecessor(store, rev).value.id.Text?)
  }

  lemma {:induction false} TrailInit(store: map<string, Document>, head: Revision, chain: seq<Revision>, seen: set<string>)
    requires PathTrail(store, head, chain, seen) && |chain| > 1
    ensures Previous(store, head, chain[|chain| - 2])
    ensures PathTrail(store, chain[|chain| - 2], chain[..|chain| - 1], seen + {head.id.s})
  {
    var init := chain[..|chain| - 1];
    assert Previous(store, chain[|chain| - 1], chain[|chain| - 2]);
    forall i | 0 < i < |init|
      ensures Previous(store, init[i], init[i - 1])
    {
      assert Previous(store, chain[i], chain[i - 1]);
    }
    forall i | 0 <= i < |init|
      ensures init[i].id.Text? && init[i].id.s !in seen + {head.id.s}
    {
      assert chain[i].id.Text? && chain[i].id.s !in seen;
      assert chain[i].id != chain[|chain| - 1].id;
    }
  }

  /** The loader goes along every trail, so whatever stands at the end of one decides the outcome. */
  lemma {:induction false} TrailIsTaken(store: map<string, Document>, head: Revision, chain: seq<Revision>, seen: set<string>)
    requires PathTrail(store, head, chain, seen)
    ensures Breaks(store, chain[0]) ==> LoadFrom(store, head, seen) == LoadError
    ensures Ends(store, chain[0]) ==> LoadFrom(store, head, seen) == Loaded(chain)
    decreases |chain|
  {
    if |chain| > 1 {
      TrailInit(store, head, chain, seen);
      FewerUnseen(store, head, chain[|chain| - 2], seen);
      TrailIsTaken(store, chain[|chain| - 2], chain[..|chain| - 1], seen + {head.id.s});
      assert chain == chain[..|chain| - 1] + [head];
    } else {
      assert chain == [head];
    }
  }

  lemma {:induction false} TrailGrows(store: map<string, Document>, head: Revision, next: Revision, chain: seq<Revision>, seen: set<string>)
    requires head.id.Text? && head.id.s !in seen && Previous(store, head, next)
    requires PathTrail(store, next, chain, seen + {head.id.s})
    ensures PathTrail(store, head, chain + [head], seen)
  {
    var longer := chain + [head];
    forall i | 0 < i < |longer|
      ensures Previous(store, longer[i], longer[i - 1])
    {
      if i < |chain| {
        assert Previous(store, chain[i], chain[i - 1]);
      }
    }
    forall i | 0 <= i < |chain|
      ensures chain[i].id.Text? && chain[i].id.s !in seen && chain[i].id != head.id
    {
      assert chain[i].id.s !in seen + {head.id.s};
    }
  }

  /** The loader came back to an id: one it had seen before, or one on this trail. */
  ghost predicate MetBefore(id: Field, chain: seq<Revision>, seen: set<string>) {
    id.Text? && (id.s in seen || exists i :: 0 <= i < |chain| && chain[i].id == id)
  }

  lemma {:induction false} MetBeforeGrows(id: Field, older: seq<Revision>, head: Revision, seen: set<string>)
    requires head.id.Text? && MetBefore(id, older, seen + {head.id.s})
    ensures MetBefore(id, older + [head], seen)
  {
    var chain := older + [head];
    assert chain[|older|] == head;
    if id.s !in seen && id != head.id {
      var i :| 0 <= i < |older| && older[i].id == id;
      assert chain[i].id == id;
    }
  }

  /** From a head with a new id there is a trail that cannot be continued to a new id: it breaks off,
      it ends, or the loader comes back to an id and keeps that revision in front of the trail. */
  lemma {:induction false} LoaderLeavesTrail(store: map<string, Document>, head: Revision, seen: set<string>)
      returns (chain: seq<Revision>)
    requires head.id.Text? && head.id.s !in seen
    ensures PathTrail(store, head, chain, seen)
    ensures LoadFrom(store, head, seen) ==
            if Breaks(store, chain[0]) then LoadError
            else if Ends(store, chain[0]) then Loaded(chain)
            else Loaded([Predecessor(store, chain[0]).value] + chain)
    ensures !Breaks(store, chain[0]) && !Ends(store, chain[0]) ==>
              MetBefore(Predecessor(store, chain[0]).value.id, chain, seen)
    decreases Unseen(store, head, seen)
  {
    chain := [head];
    if !Breaks(store, head) && !Ends(store, head) {
      var next := Predecessor(store, head).value;
      FewerUnseen(store, head, next, seen);
      var seen' := seen + {head.id.s};
      if next.id.s in seen' {
        assert LoadFrom(store, next, seen') == Loaded([next]);
        assert chain[0].id == head.id;
      } else {
        var older := LoaderLeavesTrail(store, next, seen');
        TrailGrows(store, head, next, older, seen);
        chain := older + [head];
        assert chain[0] == older[0];
        if !Breaks(store, older[0]) && !Ends(store, older[0]) {
          var again := Predecessor(store, older[0]).value;
          MetBeforeGrows(again.id, older, head, seen);
          assert [again] + older + [head] == [again] + chain;
        }
      }
    }
  }

  /** Loading ends on every store. It fails exactly when the head is no object or some trail from it
      breaks off: a path that has to be followed is unsafe, unreadable or leads to no object. */
  lemma {:induction false} LoadFailsExactly(store: map<string, Document>, head: Document)
    ensures Load(store, head).LoadError? <==>
            head.NotObject? || exists chain :: PathTrail(store, head.rev, chain, {}) && Breaks(store, chain[0])
  {
    if head.Object? {
      if chain :| PathTrail(store, head.rev, chain, {}) && Breaks(store, chain[0]) {
        TrailIsTaken(store, head.rev, chain, {});
      }
      if head.rev.id.Text? && Load(store, head).LoadError? {
        var chain := LoaderLeavesTrail(store, head.rev, {});
      }
    }
  }

  /** What is loaded follows predecessor paths from the head, meets no id twice before its oldest
      revision, and cannot be followed further. */
  lemma {:induction false} LoadedIsFollowed(store: map<string, Document>, head: Revision)
    requires Load(store, Object(head)).Loaded?
    ensures var chain := Load(store, Object(head)).chain;
            && Followed(store, head, chain)
            && (chain == [] <==> !head.id.Text?)
            && (chain != [] ==> DistinctIds(chain[1..]) && (DistinctIds(chain) ==> Ends(store, chain[0])))
  {
    if head.id.Text? {
      var trail := LoaderLeavesTrail(store, head, {});
      var chain := Load(store, Object(head)).chain;
      if Ends(store, trail[0]) {
        assert chain == trail;
      } else {
        var next := Predecessor(store, trail[0]).value;
        var i :| 0 <= i < |trail| && trail[i].id == next.id;
        assert chain[0].id == chain[i + 1].id && chain[1..] == trail;
        forall k | 0 < k < |chain|
          ensures Previous(store, chain[k], chain[k - 1])
        {
          if k > 1 {
            assert Previous(store, trail[k - 1], trail[k - 2]);
          }
        }
      }
    }
  }

  /** Validating what was loaded accepts only a path that leads from the head to a genesis without
      meeting an id twice: loops and dead ends are always rejected. */
  lemma {:induction false} AcceptedLoadReachesGenesis(store: map<string, Document>, head: Revision, chain: seq<Revision>, evidence: bool, hash: Hash)
    requires Followed(store, head, chain) && Accepted(chain, evidence, hash)
    ensures chain != [] && chain[|chain| - 1] == head && chain[0].kind.Genesis? && DistinctIds(chain)
    ensures forall i :: 0 < i < |chain| ==> !chain[i].kind.Genesis?
  {
    var linked :| SingleChain(chain, linked, evidence, hash);
    assert linked[0] in chain;
    var k :| 0 <= k < |chain| && chain[k] == linked[0];
    forall i | 0 < i < |chain|
      ensures !chain[i].kind.Genesis?
    {
      assert Previous(store, chain[i], chain[i - 1]);
    }
  }

  /** The loader follows paths, the validator follows ids. A loaded and accepted list is in the
      validator's order exactly when every predecessor path leads to the predecessor that is named. */
  lemma {:induction false} LoadedOrderExactly(store: map<string, Document>, head: Revision, chain: seq<Revision>, linked: seq<Revision>,
                           evidence: bool, hash: Hash)
    requires Followed(store, head, chain) && SingleChain(chain, linked, evidence, hash)
    ensures chain == linked <==> forall i :: 0 < i < |chain| ==> chain[i].previousId == chain[i - 1].id
  {
    if chain == linked {
      forall i | 0 < i < |chain|
        ensures chain[i].previousId == chain[i - 1].id
      {
        assert Links(linked[i - 1], linked[i], evidence, hash);
      }
    }
    if forall i :: 0 < i < |chain| ==> chain[i].previousId == chain[i - 1].id {
      SameFromTheEnd(chain, linked, evidence, hash, |chain|);
      assert chain == linked;
    }
  }

  lemma {:induction false} SameFromTheEnd(chain: seq<Revision>, linked: seq<Revision>, evidence: bool, hash: Hash, n: nat)
    requires SingleChain(chain, linked, evidence, hash) && n <= |chain|
    requires forall i :: 0 < i < |chain| ==> chain[i].previousId == chain[i - 1].id
    ensures forall i :: |chain| - n <= i < |chain| ==> chain[i] == linked[i]
  {
    if n > 1 {
      SameFromTheEnd(chain, linked, evidence, hash, n - 1);
      var i := |chain| - n;
      assert chain[i + 1].previousId == chain[i].id;
      assert Links(linked[i], linked[i + 1], evidence, hash);
      assert linked[i] in linked;
      var k :| 0 <= k < |chain| && chain[k] == linked[i];
    }
  }

  const SAMPLE_GENESIS := Revision(Text("g"), Genesis, Text("x"), Missing, Missing, Missing, NoList, 0)

  /** A genesis and three successors, each naming the one before, with these predecessor paths. */
  function SampleChain(aPath: string, bPath: string, headPath: string, hash: Hash): seq<Revision> {
    var a := SuccessorRevision(SAMPLE_GENESIS, "a", aPath, 0, hash);
    var b := SuccessorRevision(a, "b", bPath, 0, hash);
    [SAMPLE_GENESIS, a, b, SuccessorRevision(b, "h", headPath, 0, hash)]
  }

  lemma {:induction false} SampleIsChain(hash: Hash)
    ensures IsChain(SampleChain("b", "g", "a", hash), false, hash)
    ensures forall rev :: rev in SampleChain("b", "g", "a", hash) ==> WellFormed(rev)
  {
    var chain := SampleChain("b", "g", "a", hash);
    OneLetterPath("a");
    OneLetterPath("b");
    OneLetterPath("g");
    assert "x"[0] == 'x' && HasWords(Text("x"));
    assert Links(chain[0], chain[1], false, hash) && Links(chain[1], chain[2], false, hash) && Links(chain[2], chain[3], false, hash);
  }

  /** The two orders can differ: the head's path leads to "a" while it names "b". */
  lemma {:induction false} PathOrderCanDiffer(hash: Hash)
      returns (store: map<string, Document>, head: Revision, chain: seq<Revision>, linked: seq<Revision>)
    ensures Load(store, Object(head)) == Loaded(chain) && SingleChain(chain, linked, false, hash) && chain != linked
  {
    linked := SampleChain("b", "g", "a", hash);
    var g, a, b := linked[0], linked[1], linked[2];
    head := linked[3];
    chain := [g, b, a, head];
    store := map["a" := Object(a), "b" := Object(b), "g" := Object(g)];
    SampleIsChain(hash);
    OneLetterPath("a");
    OneLetterPath("b");
    OneLetterPath("g");
    assert Previous(store, head, a) && Previous(store, a, b) && Previous(store, b, g);
    TrailIsTaken(store, head, chain, {});
  }

  lemma {:induction false} OneLetterPath(path: string)
    requires |path| == 1 && IsLetter(path[0])
    ensures FilePart(path) == path && SafePath(Text(path))
  {
    assert FilePart(path) == [path[0]] + FilePart(path[1..]) && path[1..] == "";
    assert path[0] != '/' && Parts(path[1..]) == [""] && [path[0]] + "" == [path[0]];
    assert Parts(path) == [[path[0]]] && ".."[0] == '.' && |[path[0]]| == 1;
  }

  /** An accepted list that follows the paths from the head is what the loader returns. */
  lemma {:induction false} AcceptedIsLoaded(store: map<string, Document>, head: Revision, chain: seq<Revision>, evidence: bool, hash: Hash)
    requires Followed(store, head, chain) && Accepted(chain, evidence, hash)
    ensures Load(store, Object(head)) == Loaded(chain)
  {
    AcceptedLoadReachesGenesis(store, head, chain, evidence, hash);
    TrailIsTaken(store, head, chain, {});
  }

  /** `validate_history_file`: it raises exactly when loading fails, and reports no error exactly when
      the predecessor paths lead from the head through a list of revisions that is accepted. */
  method ValidateHistoryFile(store: map<string, Document>, head: Document, evidence: bool, hash: Hash)
      returns (loaded: bool, errors: seq<AncestryError>)
    ensures loaded <==> Load(store, head).Loaded?
    ensures loaded && errors == [] <==>
            head.Object? && exists chain :: Followed(store, head.rev, chain) && Accepted(chain, evidence, hash)
    ensures !loaded ==> errors == []
  {
    errors := [];
    var r := LoadChain(store, head);
    if head.Object? {
      if chain :| Followed(store, head.rev, chain) && Accepted(chain, evidence, hash) {
        AcceptedIsLoaded(store, head.rev, chain, evidence, hash);
      }
    }
    if r.LoadError? {
      return false, errors;
    }
    LoadedIsFollowed(store, head.rev);
    errors := ValidateRevisionAncestry(r.chain, evidence, hash);
    loaded := true;
  }
}
