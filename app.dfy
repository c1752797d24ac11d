/** The public catalogue: the discipline selector and search box over the
    archive, and the librarian chat's send/reply cycle. */
module App {
  import opened Types
  import opened Text
  import opened Seqs

  /** The discipline selector: every discipline, or one tag. */
  datatype Selector = All | Only(discipline: Discipline)

  /** `filter === 'All' || b.discipline === filter`: the comparison of the
      discipline strings is the comparison of the disciplines. */
  predicate MatchesFilter(sel: Selector, b: Book)
    ensures sel.All? ==> MatchesFilter(sel, b)
    ensures sel.Only? ==> (MatchesFilter(sel, b) <==> Tag(b.discipline) == Tag(sel.discipline))
  {
    match sel
    case All => true
    case Only(d) => TagInjective(b.discipline, d); b.discipline == d
  }

  /** The lowercased search occurs in the lowercased title, author or
      discipline tag. */
  predicate MatchesSearch(search: string, b: Book)
    ensures search == "" ==> MatchesSearch(search, b)
    ensures MatchesSearch(search, b) ==>
      |search| <= |b.title| || |search| <= |b.author| || |search| <= |Tag(b.discipline)|
  {
    || Contains(Lower(b.title), Lower(search))
    || Contains(Lower(b.author), Lower(search))
    || Contains(Lower(Tag(b.discipline)), Lower(search))
  }

  function Matches(sel: Selector, search: string): Book -> bool
  {
    (b: Book) => MatchesFilter(sel, b) && MatchesSearch(search, b)
  }

  /** `filteredBooks`: the records passing both the selector and the search,
      in archive order, each as often as it is stored. */
  function FilteredBooks(books: seq<Book>, sel: Selector, search: string): (r: seq<Book>)
    ensures SubseqOf(r, books)
    ensures forall i :: 0 <= i < |r| ==> MatchesFilter(sel, r[i]) && MatchesSearch(search, r[i])
    ensures forall b: Book {:trigger multiset(r)[b]} ::
      multiset(r)[b] == if MatchesFilter(sel, b) && MatchesSearch(search, b) then multiset(books)[b] else 0
    ensures sel.Only? ==> forall i :: 0 <= i < |r| ==> r[i].discipline == sel.discipline
  {
    Filter(books, Matches(sel, search))
  }

  /** A record passes the search iff the lowercased search occurs at some
      offset of its lowercased title, author or discipline tag. */
  lemma MatchesSearchIff(search: string, b: Book)
    ensures MatchesSearch(search, b) <==>
      || (exists i :: OccursAt(Lower(b.title), Lower(search), i))
      || (exists i :: OccursAt(Lower(b.author), Lower(search), i))
      || (exists i :: OccursAt(Lower(Tag(b.discipline)), Lower(search), i))
  {
    ContainsIff(Lower(b.title), Lower(search));
    ContainsIff(Lower(b.author), Lower(search));
    ContainsIff(Lower(Tag(b.discipline)), Lower(search));
  }

  /** The search ignores case: lowering the query, or the record's title
      and author, never changes whether the record passes. */
  lemma SearchIgnoresCase(search: string, b: Book)
    ensures MatchesSearch(Lower(search), b) == MatchesSearch(search, b)
    ensures MatchesSearch(search, b.(title := Lower(b.title), author := Lower(b.author))) == MatchesSearch(search, b)
  {
    LowerIdempotent(search);
    LowerIdempotent(b.title);
    LowerIdempotent(b.author);
  }

  /** Selector "All" with an empty search shows the whole archive, in order. */
  lemma AllWithEmptySearchIsIdentity(books: seq<Book>)
    ensures FilteredBooks(books, All, "") == books
  {
    forall i | 0 <= i < |books| ensures Matches(All, "")(books[i]) {
      ContainsEmpty(Lower(books[i].title));
    }
    FilterKeepsAll(books, Matches(All, ""));
  }

  /** Filtering the filtered list again with the same selector and search
      changes nothing. */
  lemma FilterTwiceIsFilterOnce(books: seq<Book>, sel: Selector, search: string)
    ensures FilteredBooks(FilteredBooks(books, sel, search), sel, search) == FilteredBooks(books, sel, search)
  {
    FilterIdempotent(books, Matches(sel, search));
  }

  datatype Role = User | Librarian
  datatype Message = Message(role: Role, text: string)

  /** Questions and answers alternate, starting with a question. */
  ghost predicate Alternates(ms: seq<Message>)
  {
    forall i :: 0 <= i < |ms| ==> ms[i].role == if i % 2 == 0 then User else Librarian
  }

  /** Appending the message whose turn it is keeps the alternation. */
  lemma AlternatesSnoc(ms: seq<Message>, m: Message)
    requires Alternates(ms)
    requires m.role == if |ms| % 2 == 0 then User else Librarian
    ensures Alternates(ms + [m])
  {
    var r := ms + [m];
    forall i | 0 <= i < |r| ensures r[i].role == if i % 2 == 0 then User else Librarian {
      if i < |ms| {
        assert r[i] == ms[i];
      }
    }
  }

  /** The librarian chat. A send and its reply are two steps, because the
      reply arrives after an await: `HandleSend` is everything before the
      await, `ReceiveReply` everything after it. */
  class LibrarianChat {
    var messages: seq<Message>
    var input: string
    var isLoading: bool

    /** Questions and answers alternate, starting with a question, and a
        reply is pending exactly when the last message is a question. */
    ghost predicate Valid()
      reads this
    {
      && Alternates(messages)
      && (isLoading <==> |messages| % 2 == 1)
    }

    constructor ()
      ensures Valid()
      ensures messages == [] && input == "" && !isLoading
    {
      messages := [];
      input := "";
      isLoading := false;
    }

    /** Typing in the input box. */
    method SetInput(text: string)
      requires Valid()
      modifies this
      ensures Valid()
      ensures input == text && messages == old(messages) && isLoading == old(isLoading)
    {
      input := text;
    }

    /** `handleSend` up to the await: a blank input (only white space) or a
        pending reply makes it do nothing; otherwise the input, untrimmed, is
        appended as a question and handed out as the query, the input box is
        cleared and a reply becomes pending. */
    method HandleSend() returns (query: Option<string>)
      requires Valid()
      modifies this
      ensures Valid()
      ensures query.None? <==> AllSpace(old(input)) || old(isLoading)
      ensures query.None? ==>
        messages == old(messages) && input == old(input) && isLoading == old(isLoading)
      ensures query.Some? ==>
        && query.value == old(input)
        && messages == old(messages) + [Message(User, old(input))]
        && input == ""
        && isLoading
    {
      var blank := IsBlank(input);
      if blank || isLoading {
        return None;
      }
      query := Some(input);
      AlternatesSnoc(messages, Message(User, input));
      messages := messages + [Message(User, input)];
      input := "";
      isLoading := true;
    }

    /** `handleSend` after the await: the librarian's answer is appended and
        the pending flag cleared. Only a pending question can be answered. */
    method ReceiveReply(response: string)
      requires Valid() && isLoading
      modifies this
      ensures Valid()
      ensures messages == old(messages) + [Message(Librarian, response)]
      ensures !isLoading && input == old(input)
    {
      AlternatesSnoc(messages, Message(Librarian, response));
      messages := messages + [Message(Librarian, response)];
      isLoading := false;
    }
  }

  /** While a reply is pending, the last message is the question it answers. */
  lemma PendingReplyFollowsQuestion(chat: LibrarianChat)
    requires chat.Valid() && chat.isLoading
    ensures chat.messages != [] && chat.messages[|chat.messages| - 1].role == User
  {
    var n := |chat.messages|;
    assert (n - 1) % 2 == 0;
  }
}
