/** The sort helper of the admin panel's test suite and the expectations
    that suite asserts about it, stated as lemmas over the mock archive. */
module AdminPanelTest {
  import opened Types
  import opened Text
  import opened Seqs
  import opened BookSort
  import opened Constants

  const Zeno: Book := Book("1", "Zeno's Paradoxes", "Zeno", Philosophy, "Logic", "Ancient puzzles.", "", "", 1000)
  const Alchemy: Book := Book("2", "Alchemy and Art", "Hermes", Esoteric, "Mysticism", "Hermetic arts.", "", "", 3000)
  const Biology: Book := Book("3", "Biology Basics", "Darwin", Science, "Evolution", "Natural selection.", "", "", 2000)

  /** The mock archive, in the suite's order. */
  const MockBooks: seq<Book> := [Zeno, Alchemy, Biology]

  /** `getSortedBooks`: sorts a copy of the array, so the argument is left
      as it was (the method may modify nothing it was given); the result is
      the stable sort of the argument's contents. */
  method GetSortedBooks(books: array<Book>, f: SortField, o: SortOrder) returns (r: seq<Book>)
    ensures r == SortBy(books[..], f, o)
    ensures |r| == books.Length && multiset(r) == multiset(books[..])
    ensures Sorted(r, f, o)
  {
    var copy := new Book[books.Length](i requires 0 <= i < books.Length reads books => books[i]);
    assert copy[..] == books[..];
    SortInPlace(copy, f, o);
    r := copy[..];
    SortBySorted(books[..], f, o);
    SortByPermutes(books[..], f, o);
  }

  /** Strings that differ in their first character compare by it. */
  lemma FirstCharDecides(s: string, t: string)
    requires s != [] && t != [] && s[0] < t[0]
    ensures StrCompare(s, t) < 0 && StrCompare(t, s) > 0
  {
  }

  /** Title ascending: "Alchemy and Art" first, "Zeno's Paradoxes" last. */
  lemma TitleAscending()
    ensures SortBy(MockBooks, Title, Asc) == [Alchemy, Biology, Zeno]
    ensures SortBy(MockBooks, Title, Asc)[0].title == "Alchemy and Art"
    ensures SortBy(MockBooks, Title, Asc)[2].title == "Zeno's Paradoxes"
  {
    var r := [Alchemy, Biology, Zeno];
    assert StrictlyOrdered(r, Title, Asc) by {
      FirstCharDecides(Alchemy.title, Biology.title);
      FirstCharDecides(Alchemy.title, Zeno.title);
      FirstCharDecides(Biology.title, Zeno.title);
    }
    MockArrangement(r, Title, Asc);
  }

  /** Title descending: the reverse of title ascending. */
  lemma TitleDescending()
    ensures SortBy(MockBooks, Title, Desc) == [Zeno, Biology, Alchemy]
    ensures SortBy(MockBooks, Title, Desc)[0].title == "Zeno's Paradoxes"
    ensures SortBy(MockBooks, Title, Desc)[2].title == "Alchemy and Art"
  {
    var r := [Zeno, Biology, Alchemy];
    assert StrictlyOrdered(r, Title, Desc) by {
      FirstCharDecides(Alchemy.title, Biology.title);
      FirstCharDecides(Alchemy.title, Zeno.title);
      FirstCharDecides(Biology.title, Zeno.title);
    }
    MockArrangement(r, Title, Desc);
  }

  /** Author ascending: "Darwin" first. */
  lemma AuthorAscending()
    ensures SortBy(MockBooks, Author, Asc) == [Biology, Alchemy, Zeno]
    ensures SortBy(MockBooks, Author, Asc)[0].author == "Darwin"
  {
    var r := [Biology, Alchemy, Zeno];
    assert StrictlyOrdered(r, Author, Asc) by {
      FirstCharDecides(Biology.author, Alchemy.author);
      FirstCharDecides(Biology.author, Zeno.author);
      FirstCharDecides(Alchemy.author, Zeno.author);
    }
    MockArrangement(r, Author, Asc);
  }

  /** Date ascending: 1000 first and 3000 last. */
  lemma DateAscending()
    ensures SortBy(MockBooks, CreatedAt, Asc) == [Zeno, Biology, Alchemy]
    ensures SortBy(MockBooks, CreatedAt, Asc)[0].createdAt == 1000
    ensures SortBy(MockBooks, CreatedAt, Asc)[2].createdAt == 3000
  {
    MockArrangement([Zeno, Biology, Alchemy], CreatedAt, Asc);
  }

  /** Date descending: 3000 first. */
  lemma DateDescending()
    ensures SortBy(MockBooks, CreatedAt, Desc) == [Alchemy, Biology, Zeno]
    ensures SortBy(MockBooks, CreatedAt, Desc)[0].createdAt == 3000
  {
    MockArrangement([Alchemy, Biology, Zeno], CreatedAt, Desc);
  }

  /** On the mock archive, whose keys are distinct, the sort yields the
      strictly ordered rearrangement of its three records. */
  lemma MockArrangement(r: seq<Book>, f: SortField, o: SortOrder)
    requires StrictlyOrdered(r, f, o) && multiset(r) == multiset(MockBooks)
    ensures SortBy(MockBooks, f, o) == r
  {
    MockKeysDistinct(f);
    SortByIsUniqueArrangement(MockBooks, r, f, o);
  }

  /** The mock archive has no two records sharing a title, an author or a
      timestamp. */
  lemma MockKeysDistinct(f: SortField)
    ensures DistinctKeys(MockBooks, f)
  {
  }

  /** Sorting an empty archive gives an empty list, in any field and order. */
  lemma EmptyArchive(f: SortField, o: SortOrder)
    ensures SortBy([], f, o) == []
  {
  }

  /** The seed catalogue, whose records all carry the same load time, keeps
      its order when sorted by date in either direction. */
  lemma SeedBooksKeepOrder(loadTime: int, o: SortOrder)
    ensures SortBy(InitialBooks(loadTime), CreatedAt, o) == InitialBooks(loadTime)
  {
    AllTiesKeepOrder(InitialBooks(loadTime), CreatedAt, o);
  }
}
