/** The archive store: one persisted slot holding the whole list of books.
    Every operation reads the whole list and rewrites the whole slot. */
module StorageService {
  import opened Types
  import opened Text
  import opened Seqs
  import opened Constants

  /** The list `getBooks` sees in a slot. A slot that is absent (or holds the
      empty string, which is just as falsy) reads as the seed catalogue; a
      present slot reads as what it holds, even when that is the empty list. */
  function ListOf(slot: Option<seq<Book>>, loadTime: int): seq<Book>
  {
    match slot
    case None => InitialBooks(loadTime)
    case Some(books) => books
  }

  /** `Math.random().toString(36).substr(2, 9)`, given the base-36 rendering
      of the random number: the characters after the leading "0.", at most
      nine of them. Nothing makes it differ from the ids already stored. */
  function GeneratedId(randomBase36: string): (id: string)
    ensures |id| <= 9
    ensures |randomBase36| >= 11 ==> id == randomBase36[2..11]
    ensures |randomBase36| <= 2 ==> id == ""
    ensures 2 <= |randomBase36| <= 11 ==> id == randomBase36[2..]
  {
    Substr(randomBase36, 2, 9)
  }

  /** `books.filter(b => b.id !== id)`: no record with the id is left, every
      other record stays, as often as it was there and in the same order. */
  function RemoveId(books: seq<Book>, id: string): (r: seq<Book>)
    ensures forall i :: 0 <= i < |r| ==> r[i].id != id
    ensures forall b: Book {:trigger multiset(r)[b]} :: b.id != id ==> multiset(r)[b] == multiset(books)[b]
    ensures SubseqOf(r, books)
  {
    Filter(books, (b: Book) => b.id != id)
  }

  /** Deleting an id that is not stored changes nothing. */
  lemma RemoveAbsentId(books: seq<Book>, id: string)
    requires forall i :: 0 <= i < |books| ==> books[i].id != id
    ensures RemoveId(books, id) == books
  {
    FilterKeepsAll(books, (b: Book) => b.id != id);
  }

  /** Deleting the same id twice leaves the list the first delete left. */
  lemma RemoveIdIdempotent(books: seq<Book>, id: string)
    ensures RemoveId(RemoveId(books, id), id) == RemoveId(books, id)
  {
    RemoveAbsentId(RemoveId(books, id), id);
  }

  /** Deleting the id of a just-added book whose id was not yet stored gives
      back the list as it was before the add. */
  lemma RemoveUndoesAdd(books: seq<Book>, b: Book)
    requires forall i :: 0 <= i < |books| ==> books[i].id != b.id
    ensures RemoveId([b] + books, b.id) == books
  {
    var p := (x: Book) => x.id != b.id;
    FilterAppend([b], books, p);
    FilterKeepsAll(books, p);
  }

  class ArchiveStore {
    /** The persisted slot; JSON encoding is the identity here. */
    var slot: Option<seq<Book>>
    /** The clock reading stamped on the seed catalogue. */
    const loadTime: int

    constructor (slot: Option<seq<Book>>, loadTime: int)
      ensures this.slot == slot && this.loadTime == loadTime
    {
      this.slot := slot;
      this.loadTime := loadTime;
    }

    /** The list `getBooks` would return now. */
    function Books(): seq<Book>
      reads this
    {
      ListOf(slot, loadTime)
    }

    /** `getBooks`: seeds an absent slot with the sample catalogue and returns
        it; otherwise returns the stored list and writes nothing. */
    method GetBooks() returns (books: seq<Book>)
      modifies this
      ensures books == old(Books())
      ensures old(slot).None? ==> books == InitialBooks(loadTime) && slot == Some(books)
      ensures old(slot).Some? ==> books == old(slot).value && slot == old(slot)
    {
      match slot
      case None =>
        slot := Some(InitialBooks(loadTime));
        books := InitialBooks(loadTime);
      case Some(stored) =>
        books := stored;
    }

    /** `addBook`: the new record carries the supplied fields, the generated
        id and the current time, and is put in front of the list as it was
        read (the seed catalogue when the slot was absent). */
    method AddBook(data: BookData, randomBase36: string, now: int) returns (b: Book)
      modifies this
      ensures DataOf(b) == data
      ensures b.id == GeneratedId(randomBase36) && |b.id| <= 9
      ensures b.createdAt == now
      ensures slot == Some([b] + old(Books()))
      ensures Books() == [b] + old(Books()) && |Books()| == |old(Books())| + 1
    {
      var books := GetBooks();
      b := MakeBook(data, GeneratedId(randomBase36), now);
      slot := Some([b] + books);
    }

    /** `deleteBook`: rewrites the slot with every record of that id removed. */
    method DeleteBook(id: string)
      modifies this
      ensures slot == Some(RemoveId(old(Books()), id))
      ensures Books() == RemoveId(old(Books()), id)
    {
      var books := GetBooks();
      slot := Some(RemoveId(books, id));
    }
  }
}
