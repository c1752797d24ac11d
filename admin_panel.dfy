/** The archive management screen: its search, its sorted table, and the
    add, delete and PDF-attach handlers that drive the store. */
module AdminPanel {
  import opened Types
  import opened Text
  import opened Seqs
  import opened BookSort
  import opened StorageService

  /** The admin search: the lowercased term occurs in the lowercased title
      or in the lowercased author. The discipline plays no part. */
  function AdminMatches(term: string): (r: Book -> bool)
    ensures term == "" ==> forall b :: r(b)
    ensures forall b :: r(b) ==> |term| <= |b.title| || |term| <= |b.author|
  {
    (b: Book) => Contains(Lower(b.title), Lower(term)) || Contains(Lower(b.author), Lower(term))
  }

  /** The filtered list the table is built from: exactly the matching
      records, each as often as it is stored, in stored order. */
  function AdminFilter(books: seq<Book>, term: string): (r: seq<Book>)
    ensures SubseqOf(r, books)
    ensures forall i :: 0 <= i < |r| ==> AdminMatches(term)(r[i])
    ensures forall b: Book {:trigger multiset(r)[b]} ::
      multiset(r)[b] == if AdminMatches(term)(b) then multiset(books)[b] else 0
  {
    Filter(books, AdminMatches(term))
  }

  /** A record passes the admin search iff the lowercased term occurs at
      some offset of its lowercased title or of its lowercased author. */
  lemma AdminMatchesIff(term: string, b: Book)
    ensures AdminMatches(term)(b) <==>
      (exists i :: OccursAt(Lower(b.title), Lower(term), i)) ||
      (exists i :: OccursAt(Lower(b.author), Lower(term), i))
  {
    ContainsIff(Lower(b.title), Lower(term));
    ContainsIff(Lower(b.author), Lower(term));
  }

  /** The admin search ignores case: lowering the term, or the record's
      title and author, never changes whether the record matches. */
  lemma AdminSearchIgnoresCase(term: string, b: Book)
    ensures AdminMatches(Lower(term))(b) == AdminMatches(term)(b)
    ensures AdminMatches(term)(b.(title := Lower(b.title), author := Lower(b.author))) == AdminMatches(term)(b)
  {
    LowerIdempotent(term);
    LowerIdempotent(b.title);
    LowerIdempotent(b.author);
  }

  /** Changing a record's discipline never changes whether it matches. */
  lemma AdminIgnoresDiscipline(term: string, b: Book, d: Discipline)
    ensures AdminMatches(term)(b.(discipline := d)) == AdminMatches(term)(b)
  {
  }

  /** An empty search term keeps every record, in order. */
  lemma AdminEmptyTermKeepsAll(books: seq<Book>)
    ensures AdminFilter(books, "") == books
  {
    forall i | 0 <= i < |books| ensures AdminMatches("")(books[i]) {
      ContainsEmpty(Lower(books[i].title));
    }
    FilterKeepsAll(books, AdminMatches(""));
  }

  /** The cover shown when neither a cover nor a generated image is at hand. */
  const PlaceholderCover: string := "https://picsum.photos/seed/archive/400/600?grayscale"

  /** The only MIME type the PDF picker accepts. */
  const PdfMimeType: string := "application/pdf"

  /** The cover an added record gets: the provided one if non-empty, else
      the generated image if non-empty, else the placeholder. `generated` is
      what the image service answered (the empty string on failure); it is
      only asked for when no cover was provided. */
  function FinalCover(provided: string, generated: string): (r: string)
    ensures r != ""
    ensures provided != "" ==> r == provided
    ensures provided == "" && generated != "" ==> r == generated
    ensures provided == "" && generated == "" ==> r == PlaceholderCover
  {
    if provided != "" then provided
    else if generated != "" then generated
    else PlaceholderCover
  }

  /** The form's contents after a successful add: empty text fields,
      discipline Esoteric and the placeholder file link "#". */
  const EmptyForm: BookData := BookData("", "", Esoteric, "", "", "", "#")

  /** A file chosen in the PDF picker. */
  datatype UploadedFile = UploadedFile(name: string, mimeType: string)

  class Panel {
    const store: ArchiveStore
    var books: seq<Book>
    var showAddForm: bool
    var searchTerm: string
    var sortField: SortField
    var sortOrder: SortOrder
    var pdfName: string
    var form: BookData

    /** Mounting the panel reads (and, for an absent slot, seeds) the store;
        the table starts newest first with an empty search. */
    constructor (store: ArchiveStore)
      modifies store
      ensures this.store == store
      ensures books == old(store.Books()) && store.slot == Some(books)
      ensures !showAddForm && searchTerm == "" && pdfName == "" && form == EmptyForm
      ensures sortField == CreatedAt && sortOrder == Desc
    {
      this.store := store;
      showAddForm := false;
      searchTerm := "";
      sortField := CreatedAt;
      sortOrder := Desc;
      pdfName := "";
      form := EmptyForm;
      new;
      books := store.GetBooks();
    }

    /** `sortedBooks`: the admin filter of `books`, sorted on a fresh array.
        The panel's own `books` is never reordered (nothing is modified). */
    method SortedBooks() returns (r: seq<Book>)
      ensures r == SortBy(AdminFilter(books, searchTerm), sortField, sortOrder)
      ensures multiset(r) == multiset(AdminFilter(books, searchTerm))
      ensures Sorted(r, sortField, sortOrder)
    {
      var filtered := AdminFilter(books, searchTerm);
      var a := new Book[|filtered|](i requires 0 <= i < |filtered| => filtered[i]);
      assert a[..] == filtered;
      SortInPlace(a, sortField, sortOrder);
      r := a[..];
      SortBySorted(filtered, sortField, sortOrder);
      SortByPermutes(filtered, sortField, sortOrder);
    }

    /** `handleDelete`: only a confirmed delete touches the store; the table
        is then re-read from it. */
    method HandleDelete(id: string, confirmed: bool)
      modifies this, store
      ensures confirmed ==> store.slot == Some(RemoveId(old(store.Books()), id))
      ensures confirmed ==> books == RemoveId(old(store.Books()), id)
      ensures !confirmed ==> store.slot == old(store.slot) && books == old(books)
      ensures showAddForm == old(showAddForm) && searchTerm == old(searchTerm) && pdfName == old(pdfName)
      ensures sortField == old(sortField) && sortOrder == old(sortOrder) && form == old(form)
    {
      if confirmed {
        store.DeleteBook(id);
        books := store.GetBooks();
      }
    }

    /** `handleAdd`: the record is the form's fields with the chosen cover,
        put in front of the stored list; the table is re-read, the form is
        closed and reset. */
    method HandleAdd(generated: string, randomBase36: string, now: int) returns (added: Book)
      modifies this, store
      ensures DataOf(added) == old(form).(coverUrl := FinalCover(old(form.coverUrl), generated))
      ensures added.coverUrl != ""
      ensures added.id == GeneratedId(randomBase36) && added.createdAt == now
      ensures store.slot == Some([added] + old(store.Books()))
      ensures books == [added] + old(store.Books())
      ensures !showAddForm && pdfName == "" && form == EmptyForm
      ensures searchTerm == old(searchTerm) && sortField == old(sortField) && sortOrder == old(sortOrder)
    {
      var cover := FinalCover(form.coverUrl, generated);
      added := store.AddBook(form.(coverUrl := cover), randomBase36, now);
      books := store.GetBooks();
      showAddForm := false;
      pdfName := "";
      form := EmptyForm;
    }

    /** `handlePdfUpload`: a chosen file that is not a PDF is refused and
        nothing changes; a PDF sets the shown file name and the form's file
        link (`dataUrl`, what the file reader produces). No file chosen:
        nothing happens. */
    method HandlePdfUpload(file: Option<UploadedFile>, dataUrl: string) returns (refused: bool)
      modifies this
      ensures refused <==> file.Some? && file.value.mimeType != PdfMimeType
      ensures file.Some? && !refused ==>
        pdfName == file.value.name && form == old(form).(fileUrl := dataUrl)
      ensures file.None? || refused ==> pdfName == old(pdfName) && form == old(form)
      ensures books == old(books) && showAddForm == old(showAddForm) && searchTerm == old(searchTerm)
      ensures sortField == old(sortField) && sortOrder == old(sortOrder)
    {
      refused := false;
      match file
      case None =>
      case Some(f) =>
        if f.mimeType != PdfMimeType {
          refused := true;
        } else {
          pdfName := f.name;
          form := form.(fileUrl := dataUrl);
        }
    }
  }
}
