/** The bulk deleter: ask for confirmation, and only on an answer that lower-cases to "yes"
    list the project's packages and issue one DELETE per listed id. */
module Deleter {
  import opened Wrappers
  import opened Registry
  import opened Lister

  /** `str.lower()` on the letters A-Z; every other character is left as it is. */
  function AsciiLower(s: string): string
  {
    seq(|s|, i requires 0 <= i < |s| => if 'A' <= s[i] <= 'Z' then (s[i] as int + 32) as char else s[i])
  }

  /** The confirmation test `confirmation.lower() == 'yes'`. */
  predicate Confirmed(answer: string)
  {
    AsciiLower(answer) == "yes"
  }

  /** The answers accepted are exactly the eight spellings of "yes" in any letter case. */
  lemma ConfirmedExactly(answer: string)
    ensures Confirmed(answer) <==>
              |answer| == 3 && answer[0] in "yY" && answer[1] in "eE" && answer[2] in "sS"
  {
    if |answer| == 3 && answer[0] in "yY" && answer[1] in "eE" && answer[2] in "sS" {
      assert AsciiLower(answer) == "yes";
    }
    if Confirmed(answer) {
      assert |answer| == 3;
      assert AsciiLower(answer)[0] == 'y' && AsciiLower(answer)[1] == 'e' && AsciiLower(answer)[2] == 's';
    }
  }

  /** How a delete action ends. `Deleted` carries the URL of every DELETE request, in order. */
  datatype Deletion =
    | Cancelled                     // "Deletion cancelled."
    | NothingToDelete               // "No packages found to delete."
    | Deleted(requests: seq<string>)
    | Aborted(fatal: Fatal)         // the listing raised

  /** The DELETE URL as the script builds it: the server root, without the `/api/v4` prefix that
      every other registry call uses. */
  function DeleteUrlAsWritten(p: Project, id: PackageId): string
  {
    p.server + "/projects/" + p.projectId + "/packages/" + Decimal(id)
  }

  /** The DELETE as written misses the package's API endpoint by exactly the `/api/v4` segment,
      so it never reaches the REST route that deletes a package. */
  lemma DeleteUrlAsWrittenMissesApi(p: Project, id: PackageId)
    ensures PackageUrl(p, id) == p.server + "/api/v4" + DeleteUrlAsWritten(p, id)[|p.server|..]
    ensures DeleteUrlAsWritten(p, id) != PackageUrl(p, id)
  {
    assert |PackageUrl(p, id)| == |DeleteUrlAsWritten(p, id)| + 7;
  }

  /** The delete action, sending each DELETE to the package's API endpoint (the URL the
      package-info request uses). */
  method DeleteAll(p: Project, answer: string) returns (outcome: Deletion)
    ensures !Confirmed(answer) ==> outcome == Cancelled
    ensures Confirmed(answer) && ListedIds(p).Failure? ==> outcome == Aborted(ListedIds(p).error)
    ensures Confirmed(answer) && ListedIds(p) == Success([]) ==> outcome == NothingToDelete
    ensures Confirmed(answer) && ListedIds(p).Success? && ListedIds(p).value != [] ==>
              && outcome.Deleted?
              && |outcome.requests| == |ListedIds(p).value|
              && forall k :: 0 <= k < |outcome.requests| ==>
                   outcome.requests[k] == PackageUrl(p, ListedIds(p).value[k])
  {
    if AsciiLower(answer) != "yes" {
      return Cancelled;
    }
    var listed := ListPackageIds(p);
    if listed.Failure? {
      return Aborted(listed.error);
    }
    var ids := listed.value;
    if ids == [] {
      return NothingToDelete;
    }
    var requests: seq<string> := [];
    for i := 0 to |ids|
      invariant |requests| == i
      invariant forall k :: 0 <= k < i ==> requests[k] == PackageUrl(p, ids[k])
    {
      requests := requests + [PackageUrl(p, ids[i])];
    }
    outcome := Deleted(requests);
  }
}
