/** The stored entities of the land-records application: a land record with
    its owner, optional category and uploaded document; the table of records
    keyed by primary key; the record's extension helpers; the referential
    rules applied when a user or a category is deleted; and the table's
    default ordering. */
module Models {
  import opened Wrappers
  import opened Strings

  type UserId = nat
  type CategoryId = nat
  type RecordId = nat

  /** An uploaded or stored file: its name (for a stored file, the storage
      name such as "land_records/deed.pdf") and its size in bytes. */
  datatype Document = Document(name: string, size: nat)

  /** A land record. `dateAdded` is an opaque, totally ordered timestamp. */
  datatype Record = Record(
    title: string,
    propertyAddress: string,
    description: string,
    owner: UserId,
    category: Option<CategoryId>,
    document: Document,
    surveyNumber: Option<string>,
    propertySize: Option<string>,
    propertyType: Option<string>,
    dateAdded: int)

  /** The records table, keyed by primary key. */
  type Store = map<RecordId, Record>

  // ---------------------------------------------------------------------
  // Extension helpers
  // ---------------------------------------------------------------------

  /** Python's `ValueError` from unpacking a one-element list into two names. */
  datatype ExtensionError = NotEnoughValuesToUnpack

  /** `get_file_extension`: unpacks the last two dot-separated pieces of the
      stored name into two variables, so it fails when the name has no dot,
      and otherwise yields the lower-cased text after the last dot. */
  function GetFileExtension(name: string): (r: Result<string, ExtensionError>)
    ensures r.Failure? <==> '.' !in name
    ensures r.Success? ==>
      && |r.value| < |name|
      && name[|name| - |r.value| - 1] == '.'
      && '.' !in name[|name| - |r.value|..]
      && r.value == Lower(name[|name| - |r.value|..])
  {
    var parts := Split(name, '.');
    SplitHasTwoPieces(name, '.');
    LastPieceIsSuffix(name, '.');
    // Unpacking the last two pieces needs at least two of them.
    if |parts| < 2 then Failure(NotEnoughValuesToUnpack)
    else
      var tail := parts[|parts| - 2..];
      Success(Lower(tail[1]))
  }

  /** `name` ends with `suffix`, ignoring case. */
  predicate EndsWithIgnoringCase(name: string, suffix: string) {
    |suffix| <= |name| && Lower(name[|name| - |suffix|..]) == suffix
  }

  /** For a dot-free extension, `get_file_extension` yields it
      exactly when the name ends with a dot followed by it, ignoring case. */
  lemma ExtensionBySuffix(name: string, ext: string)
    requires '.' !in ext
    ensures GetFileExtension(name) == Success(ext) <==> EndsWithIgnoringCase(name, "." + ext)
  {
    if GetFileExtension(name) == Success(ext) {
      SuffixOfExtension(name, ext);
    }
    if EndsWithIgnoringCase(name, "." + ext) {
      ExtensionOfSuffix(name, ext);
    }
  }

  lemma SuffixOfExtension(name: string, ext: string)
    requires GetFileExtension(name) == Success(ext)
    ensures EndsWithIgnoringCase(name, "." + ext)
  {
    var n, m := |name|, |ext|;
    var dotted := "." + ext;
    var t := name[n - m - 1..];
    LowerSlice(name, n - m, n);
    forall i | 0 <= i < |t|
      ensures Lower(t)[i] == dotted[i]
    {
      if i > 0 {
        assert t[i] == name[n - m..][i - 1];
      }
    }
  }

  lemma ExtensionOfSuffix(name: string, ext: string)
    requires '.' !in ext
    requires EndsWithIgnoringCase(name, "." + ext)
    ensures GetFileExtension(name) == Success(ext)
  {
    var n, m := |name|, |ext|;
    var t := name[n - m - 1..];
    LowerSlice(t, 1, |t|);
    assert t[1..] == name[n - m..];
    assert Lower(name[n - m..]) == ext;
    DotFreeUnderLower(name[n - m..]);
    assert LowerChar(t[0]) == '.';
    assert name[n - m - 1] == '.';
    var v := GetFileExtension(name).value;
    LastSeparatorUnique(name, '.', n - m - 1, n - |v| - 1);
  }

  const ImageExtensions: seq<string> := ["jpg", "jpeg", "png", "gif"]

  /** `is_pdf`: the failure of `get_file_extension` propagates; otherwise it
      holds exactly when the name ends with ".pdf" in any case. */
  function IsPdf(record: Record): (r: Result<bool, ExtensionError>)
    ensures r.Failure? <==> '.' !in record.document.name
    ensures r.Success? ==> (r.value <==> EndsWithIgnoringCase(record.document.name, ".pdf"))
  {
    ExtensionBySuffix(record.document.name, "pdf");
    assert "." + "pdf" == ".pdf";
    match GetFileExtension(record.document.name)
    case Failure(e) => Failure(e)
    case Success(ext) => Success(ext == "pdf")
  }

  /** `is_image`: the failure of `get_file_extension` propagates; otherwise it
      holds exactly when the name ends with a dot and one of the image
      extensions, in any case. */
  function IsImage(record: Record): (r: Result<bool, ExtensionError>)
    ensures r.Failure? <==> '.' !in record.document.name
    ensures r.Success? ==> (r.value <==>
      exists e :: e in ImageExtensions && EndsWithIgnoringCase(record.document.name, "." + e))
  {
    forall e | e in ImageExtensions
      ensures GetFileExtension(record.document.name) == Success(e)
          <==> EndsWithIgnoringCase(record.document.name, "." + e)
    {
      ExtensionBySuffix(record.document.name, e);
    }
    match GetFileExtension(record.document.name)
    case Failure(e) => Failure(e)
    case Success(ext) => Success(ext in ImageExtensions)
  }

  /** Both helpers fail exactly on a dotless name; otherwise `is_pdf` holds
      iff the extension is "pdf", `is_image` iff it is one of jpg, jpeg, png,
      gif, and the two are never both true. */
  lemma PdfAndImageExclusive(record: Record)
    ensures IsPdf(record).Failure? <==> '.' !in record.document.name
    ensures IsImage(record).Failure? <==> '.' !in record.document.name
    ensures IsPdf(record).Success? ==>
      (IsPdf(record).value <==> GetFileExtension(record.document.name) == Success("pdf"))
    ensures IsImage(record).Success? ==>
      (IsImage(record).value <==>
        GetFileExtension(record.document.name).value in {"jpg", "jpeg", "png", "gif"})
    ensures !(IsPdf(record) == Success(true) && IsImage(record) == Success(true))
  {
  }

  // ---------------------------------------------------------------------
  // Referential rules
  // ---------------------------------------------------------------------

  /** Deleting a user cascades (`on_delete=CASCADE` on `owner`): exactly that
      user's records disappear and every other record is untouched. */
  function DeleteUser(store: Store, user: UserId): (r: Store)
    ensures forall pk :: pk in r <==> pk in store && store[pk].owner != user
    ensures forall pk :: pk in r ==> r[pk] == store[pk]
  {
    map pk | pk in store && store[pk].owner != user :: store[pk]
  }

  /** Deleting the same user twice removes nothing more. */
  lemma DeleteUserIdempotent(store: Store, user: UserId)
    ensures DeleteUser(DeleteUser(store, user), user) == DeleteUser(store, user)
  {
    var once := DeleteUser(store, user);
    assert DeleteUser(once, user).Keys == once.Keys;
  }

  /** Deleting a category nullifies (`on_delete=SET_NULL` on `category`): no
      record disappears, the records that pointed at the category now have
      none, and nothing else changes. */
  function DeleteCategory(store: Store, category: CategoryId): (r: Store)
    ensures r.Keys == store.Keys
    ensures forall pk :: pk in store && store[pk].category == Some(category) ==>
      r[pk] == store[pk].(category := None)
    ensures forall pk :: pk in store && store[pk].category != Some(category) ==>
      r[pk] == store[pk]
  {
    map pk | pk in store ::
      if store[pk].category == Some(category) then store[pk].(category := None) else store[pk]
  }

  /** After a category is deleted no record refers to it, and every record
      keeps its owner. */
  lemma DeleteCategoryLeavesNoReference(store: Store, category: CategoryId)
    ensures forall pk :: pk in DeleteCategory(store, category) ==>
      DeleteCategory(store, category)[pk].category != Some(category)
    ensures forall pk :: pk in store ==>
      DeleteCategory(store, category)[pk].owner == store[pk].owner
    ensures |DeleteCategory(store, category)| == |store|
  {
    assert DeleteCategory(store, category).Keys == store.Keys;
  }

  /** The two referential rules are independent: deleting a user and
      deleting a category give the same table in either order. */
  lemma DeletionsCommute(store: Store, user: UserId, category: CategoryId)
    ensures DeleteUser(DeleteCategory(store, category), user)
         == DeleteCategory(DeleteUser(store, user), category)
  {
    var a := DeleteUser(DeleteCategory(store, category), user);
    var b := DeleteCategory(DeleteUser(store, user), category);
    assert a.Keys == b.Keys;
    forall pk | pk in a
      ensures a[pk] == b[pk]
    {
    }
  }

  // ---------------------------------------------------------------------
  // Default ordering: newest `date_added` first
  // ---------------------------------------------------------------------

  /** Most recent first. */
  ghost predicate SortedByDateDesc(rows: seq<Record>) {
    forall i, j :: 0 <= i < j < |rows| ==> rows[i].dateAdded >= rows[j].dateAdded
  }

  /** Prepending a row at least as new as every row of a sorted sequence
      keeps it sorted. */
  lemma ConsSorted(h: Record, rows: seq<Record>)
    requires SortedByDateDesc(rows)
    requires forall y :: y in rows ==> h.dateAdded >= y.dateAdded
    ensures SortedByDateDesc([h] + rows)
  {
    var r := [h] + rows;
    forall i, j | 0 <= i < j < |r|
      ensures r[i].dateAdded >= r[j].dateAdded
    {
      if i == 0 {
        assert r[j] in rows;
      } else {
        assert r[i] == rows[i - 1] && r[j] == rows[j - 1];
      }
    }
  }

  /** The first row of a sorted sequence is at least as new as every later
      row, and the rows after it are still sorted. */
  lemma HeadIsNewest(rows: seq<Record>)
    requires SortedByDateDesc(rows) && |rows| > 0
    ensures SortedByDateDesc(rows[1..])
    ensures forall y :: y in rows[1..] ==> rows[0].dateAdded >= y.dateAdded
  {
    var tail := rows[1..];
    forall y | y in tail
      ensures rows[0].dateAdded >= y.dateAdded
    {
      var k :| 0 <= k < |tail| && tail[k] == y;
      assert rows[k + 1] == y;
    }
  }

  /** A row at least as new as `x` and as every row of `rows` is at least as
      new as every row of any rearrangement of `rows` plus `x`. */
  lemma BoundSurvivesInsert(h: Record, x: Record, rows: seq<Record>, r: seq<Record>)
    requires forall y :: y in rows ==> h.dateAdded >= y.dateAdded
    requires h.dateAdded >= x.dateAdded
    requires multiset(r) == multiset(rows) + multiset{x}
    ensures forall y :: y in r ==> h.dateAdded >= y.dateAdded
  {
    forall y | y in r
      ensures h.dateAdded >= y.dateAdded
    {
      assert y in multiset(r);
      if y != x {
        assert y in multiset(rows);
      }
    }
  }

  /** Inserts `x` before the first row that is not newer than it. */
  function InsertByDate(x: Record, rows: seq<Record>): (r: seq<Record>)
    requires SortedByDateDesc(rows)
    ensures SortedByDateDesc(r)
    ensures multiset(r) == multiset(rows) + multiset{x}
  {
    if |rows| == 0 then [x]
    else if x.dateAdded >= rows[0].dateAdded then
      ConsSorted(x, rows);
      [x] + rows
    else
      HeadIsNewest(rows);
      var rest := InsertByDate(x, rows[1..]);
      InsertBehindHead(x, rows, rest);
      [rows[0]] + rest
  }

  /** When `x` is older than the head, inserting it into the rest and
      putting the head back in front keeps the order and the rows. */
  lemma InsertBehindHead(x: Record, rows: seq<Record>, rest: seq<Record>)
    requires SortedByDateDesc(rows) && |rows| > 0 && x.dateAdded < rows[0].dateAdded
    requires SortedByDateDesc(rest)
    requires multiset(rest) == multiset(rows[1..]) + multiset{x}
    ensures SortedByDateDesc([rows[0]] + rest)
    ensures multiset([rows[0]] + rest) == multiset(rows) + multiset{x}
  {
    var h, tail := rows[0], rows[1..];
    HeadIsNewest(rows);
    BoundSurvivesInsert(h, x, tail, rest);
    ConsSorted(h, rest);
    assert rows == [h] + tail;
    assert multiset([h] + rest) == multiset{h} + multiset(rest);
  }

  /** The rows of the table in its default ordering, newest first. The
      database leaves the order of equal timestamps open; this is one valid
      choice. */
  function DefaultOrder(rows: seq<Record>): (r: seq<Record>)
    ensures SortedByDateDesc(r)
    ensures multiset(r) == multiset(rows)
  {
    if |rows| == 0 then []
    else
      assert rows == [rows[0]] + rows[1..];
      InsertByDate(rows[0], DefaultOrder(rows[1..]))
  }
}
