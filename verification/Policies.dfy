/** A policy as it crosses the wire, and the id shadow the RDF runner keeps of it. */
module Policies {
  import opened Wrappers
  import opened Inheritance
  import opened Rules

  datatype ConflictStrategy = Perm | Prohibit | Invalid

  datatype WirePolicy = WirePolicy(
    id: Id,
    kind: string,
    assigner: string,
    assignee: Option<string>,
    permissions: seq<Rule>,
    prohibitions: seq<Rule>,
    obligations: seq<Rule>,
    conflict: ConflictStrategy,
    inheritFrom: Option<seq<Id>>,
    profile: seq<string>)
  {
    function Lists(): RuleLists { RuleLists(permissions, prohibitions, obligations) }
    function Head(): Header { Header(id, inheritFrom) }
  }

  datatype PolicyIds = PolicyIds(
    id: Id,
    permissions: seq<RuleIds>,
    prohibitions: seq<RuleIds>,
    obligations: seq<RuleIds>,
    inheritFrom: Option<seq<Id>>)
  {
    function Lists(): IdLists { IdLists(permissions, prohibitions, obligations) }
    function Head(): Header { Header(id, inheritFrom) }
  }

  /** All that inheritance reads of a policy: its id and the parents it names. */
  datatype Header = Header(id: Id, inheritFrom: Option<seq<Id>>)
  {
    function ParentIds(): seq<Id> {
      match inheritFrom
      case None => []
      case Some(ids) => ids
    }
  }

  function Headers(all: seq<WirePolicy>): (r: seq<Header>)
    ensures |r| == |all| && forall k :: 0 <= k < |r| ==> r[k] == all[k].Head()
  {
    seq(|all|, k requires 0 <= k < |all| => all[k].Head())
  }

  function IdHeaders(all: seq<PolicyIds>): (r: seq<Header>)
    ensures |r| == |all| && forall k :: 0 <= k < |r| ==> r[k] == all[k].Head()
  {
    seq(|all|, k requires 0 <= k < |all| => all[k].Head())
  }

  /** The place each id names: of two policies with one id, the later one. */
  function Index(headers: seq<Header>): (r: map<Id, nat>)
    ensures forall id :: id in r ==> r[id] < |headers| && headers[r[id]].id == id
    ensures forall k :: 0 <= k < |headers| ==> headers[k].id in r && k <= r[headers[k].id]
  {
    if headers == [] then map[]
    else
      var last := |headers| - 1;
      Index(headers[..last])[headers[last].id := last]
  }

  function ParentsOf(headers: seq<Header>): Parents {
    var index := Index(headers);
    map id | id in index :: headers[index[id]].ParentIds()
  }

  ghost predicate DistinctIds(headers: seq<Header>) {
    forall i, j :: 0 <= i < j < |headers| ==> headers[i].id != headers[j].id
  }

  lemma DistinctIndex(headers: seq<Header>, k: nat)
    requires DistinctIds(headers) && k < |headers|
    ensures headers[k].id in Index(headers) && Index(headers)[headers[k].id] == k
  {
  }

  /** Each policy beside its shadow: the same id and parents, and rule lists of the same shape. */
  ghost predicate Shadows(all: seq<WirePolicy>, ids: seq<PolicyIds>) {
    && |all| == |ids|
    && forall k :: 0 <= k < |all| ==>
      all[k].Head() == ids[k].Head() && SameLists(all[k].Lists(), ids[k].Lists())
  }
}
