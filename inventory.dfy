/** The inventory exporter: truncate the CSV file, then append one (name, version) row per
    listed package id, in listing order, with one package-info request per id. Despite the
    file's name, rows are not deduplicated. */
module Inventory {
  import opened Wrappers
  import opened Seqs
  import opened Registry
  import opened Lister

  datatype Row = Row(name: string, version: string)

  /** The CSV file once the export ends: its rows, and the uncaught error that ended the export
      early, if any. The file is truncated before the listing, so it is empty after a listing
      failure. */
  datatype Csv = Csv(rows: seq<Row>, fatal: Option<Fatal>)

  /** The rows written for the given ids, one per id in order. */
  function Rows(p: Project, ids: seq<PackageId>): seq<Row>
  {
    seq(|ids|, k requires 0 <= k < |ids| => Row(p.info(ids[k]).name, p.info(ids[k]).version))
  }

  function InventoryCsv(p: Project): Csv
  {
    match ListedIds(p)
    case Failure(e) => Csv([], Some(e))
    case Success(ids) => Csv(Rows(p, ids), None)
  }

  /** The export loop: truncate, list, then one info request and one appended row per id. */
  method ExportInventory(p: Project) returns (csv: Csv)
    ensures csv == InventoryCsv(p)
  {
    var rows: seq<Row> := [];
    var listed := ListPackageIds(p);
    if listed.Failure? {
      return Csv(rows, Some(listed.error));
    }
    var ids := listed.value;
    for i := 0 to |ids|
      invariant rows == Rows(p, ids[..i])
    {
      var info := p.info(ids[i]);
      rows := rows + [Row(info.name, info.version)];
    }
    assert ids[..|ids|] == ids;
    csv := Csv(rows, None);
  }

  /** One row per listed id, in listing order: as many rows as the pages hold ids, each the
      name and version of its id. */
  lemma InventoryOneRowPerId(p: Project)
    requires ListedIds(p).Success?
    ensures var ids := ListedIds(p).value;
            var csv := InventoryCsv(p);
            && csv.fatal.None?
            && |csv.rows| == |ids| == PageCountSum(p, p.totalPages.n)
            && forall k :: 0 <= k < |ids| ==> csv.rows[k] == Row(p.info(ids[k]).name, p.info(ids[k]).version)
  {
    ListedIdsFailsOnlyOnHeader(p);
    ListedIdsLength(p);
  }

  /** A listing failure leaves the freshly truncated file empty. */
  lemma InventoryEmptyOnListingFailure(p: Project)
    requires !p.totalPages.Count?
    ensures InventoryCsv(p).rows == []
    ensures InventoryCsv(p).fatal == Some(if p.totalPages.MissingHeader? then MissingTotalPages else MalformedTotalPages)
  {
  }

  /** Two listed ids with the same name and version give two equal rows: nothing is collapsed. */
  lemma InventoryKeepsDuplicates(p: Project, i: nat, j: nat)
    requires ListedIds(p).Success?
    requires i < j < |ListedIds(p).value|
    requires p.info(ListedIds(p).value[i]) == p.info(ListedIds(p).value[j])
    ensures |InventoryCsv(p).rows| == |ListedIds(p).value|
    ensures InventoryCsv(p).rows[i] == InventoryCsv(p).rows[j]
  {
  }

  /** A project with one page listing ids 10 and 11, both versions of pkgA, exports exactly the
      rows `pkgA,1.0` and `pkgA,1.1`, in that order. */
  lemma InventoryTwoVersionsOfOnePackage(p: Project)
    requires p.totalPages == Count(1) && p.page(1) == [10, 11]
    requires p.info(10) == PackageInfo("pkgA", "1.0") && p.info(11) == PackageInfo("pkgA", "1.1")
    ensures InventoryCsv(p) == Csv([Row("pkgA", "1.0"), Row("pkgA", "1.1")], None)
  {
    assert PageRange(p, 1) == [[10, 11]];
    assert Flatten(PageRange(p, 1)) == [10, 11] + Flatten([]) by {
      assert PageRange(p, 1)[1..] == [];
    }
  }
}
