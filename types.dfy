/** The catalogue's record types: the discipline tag set and the book record. */
module Types {

  datatype Option<+T> = None | Some(value: T)

  /** The seven discipline tags a book is classified under. */
  datatype Discipline =
    | History
    | Science
    | Esoteric
    | Philosophy
    | Psychology
    | Political
    | LostKnowledge

  /** The string value each tag carries at run time. */
  function Tag(d: Discipline): string
  {
    match d
    case History => "History"
    case Science => "Science"
    case Esoteric => "Esoteric"
    case Philosophy => "Philosophy"
    case Psychology => "Psychology"
    case Political => "Political"
    case LostKnowledge => "Lost Knowledge"
  }

  /** Distinct tags have distinct strings, so comparing tag strings is comparing tags. */
  lemma TagInjective(d1: Discipline, d2: Discipline)
    ensures Tag(d1) == Tag(d2) <==> d1 == d2
  {
  }

  /** A catalogue entry. */
  datatype Book = Book(
    id: string,
    title: string,
    author: string,
    discipline: Discipline,
    category: string,
    description: string,
    coverUrl: string,
    fileUrl: string,   // a URL, an embedded data URL, or "#" for "no document"
    createdAt: int     // milliseconds since the epoch
  )

  /** A book without the two fields the store assigns (`id` and `createdAt`);
      the admin form holds exactly these fields. */
  datatype BookData = BookData(
    title: string,
    author: string,
    discipline: Discipline,
    category: string,
    description: string,
    coverUrl: string,
    fileUrl: string
  )

  /** The caller-supplied part of a book. */
  function DataOf(b: Book): BookData
  {
    BookData(b.title, b.author, b.discipline, b.category, b.description, b.coverUrl, b.fileUrl)
  }

  /** `{ ...data, id, createdAt }`: the record keeps every supplied field and
      carries the generated id and timestamp. */
  function MakeBook(data: BookData, id: string, createdAt: int): (b: Book)
    ensures DataOf(b) == data
    ensures b.id == id && b.createdAt == createdAt
  {
    Book(id, data.title, data.author, data.discipline, data.category,
         data.description, data.coverUrl, data.fileUrl, createdAt)
  }
}
