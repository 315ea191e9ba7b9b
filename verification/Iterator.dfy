/** Iterator: a `BookCollection` keeps its books in a list and hands out a
    `BookIterator` that walks the list by index. The iterator reads the
    collection it was made from; here the collection is passed to each
    iterator operation explicitly. */
module Iterator {
  import opened Wrappers

  /** The collection's list of books, in insertion order. */
  datatype BookCollection = BookCollection(books: seq<string>)

  /** A `BookIterator`: its `_currentIndex` (it starts at 0 and only ever
      grows, so it is never negative). */
  datatype BookIterator = BookIterator(index: nat)

  /** The exception `List<T>`'s indexer throws for an index outside the list. */
  datatype Fault = ArgumentOutOfRange

  /** `BookCollection.Count`: the number of books, zero exactly when the
      list is empty. */
  function Count(c: BookCollection): (n: nat)
    ensures n == |c.books|
    ensures n == 0 <==> c.books == []
  {
    |c.books|
  }

  /** `BookCollection.AddBook`: appends, so the count grows by one and every
      earlier index still holds the same book. */
  function AddBook(c: BookCollection, book: string): (r: BookCollection)
    ensures Count(r) == Count(c) + 1
    ensures forall i | 0 <= i < Count(c) :: r.books[i] == c.books[i]
    ensures r.books[Count(c)] == book
  {
    BookCollection(c.books + [book])
  }

  /** The collection's indexer: the book at `i`, or the exception for an
      index outside `0 .. Count - 1`. */
  function Item(c: BookCollection, i: int): (r: Result<string, Fault>)
    ensures r.Ok? <==> 0 <= i < Count(c)
    ensures r.Ok? ==> r.value == c.books[i]
  {
    if 0 <= i < |c.books| then Ok(c.books[i]) else Err(ArgumentOutOfRange)
  }

  /** `CreateIterator`: a new iterator starts at index 0. */
  function CreateIterator(c: BookCollection): (it: BookIterator)
    ensures it.index == 0
  {
    BookIterator(0)
  }

  /** `BookIterator.IsDone`: the index has reached or passed the count,
      which is exactly when the indexer would throw at the current index. */
  function IsDone(c: BookCollection, it: BookIterator): (done: bool)
    ensures done <==> Item(c, it.index).Err?
  {
    it.index >= Count(c)
  }

  /** `BookIterator.First`: resets the index to 0 and returns the first
      book; on an empty collection the indexer throws (after the reset). */
  function First(c: BookCollection, it: BookIterator): (r: (BookIterator, Result<string, Fault>))
    ensures r.0.index == 0
    ensures r.1.Ok? <==> Count(c) > 0
    ensures r.1.Ok? ==> r.1.value == c.books[0]
  {
    var it' := BookIterator(0);
    (it', Item(c, it'.index))
  }

  /** `BookIterator.Next`: advances the index by one, then returns the book
      at the new index, or null once the iterator is done. */
  function Next(c: BookCollection, it: BookIterator): (r: (BookIterator, Option<string>))
    ensures r.0.index == it.index + 1
    ensures r.1.Some? <==> !IsDone(c, r.0)
    ensures r.1.Some? ==> r.1.value == c.books[it.index + 1]
  {
    var it' := BookIterator(it.index + 1);
    if !IsDone(c, it') then (it', Some(c.books[it'.index])) else (it', None)
  }

  /** `BookIterator.CurrentItem`: the book at the current index, without
      moving; the indexer throws once the iterator is done. */
  function CurrentItem(c: BookCollection, it: BookIterator): (r: Result<string, Fault>)
    ensures r.Ok? <==> !IsDone(c, it)
    ensures r.Ok? ==> r.value == c.books[it.index]
  {
    Item(c, it.index)
  }

  /** The driver's loop `for (book = First(); !IsDone; book = Next())`: on a
      non-empty collection it visits every book once, in insertion order; on
      an empty one `First` already throws. */
  method Traverse(c: BookCollection) returns (r: Result<seq<string>, Fault>)
    ensures r.Err? <==> Count(c) == 0
    ensures r.Ok? ==> r.value == c.books
  {
    var it := CreateIterator(c);
    var (it', first) := First(c, it);
    if first.Err? {
      return Err(first.error);
    }
    it := it';
    var book: Option<string> := Some(first.value);
    var visited: seq<string> := [];
    while !IsDone(c, it)
      invariant it.index <= Count(c)
      invariant visited == c.books[..it.index]
      invariant !IsDone(c, it) ==> book == Some(c.books[it.index])
      decreases Count(c) - it.index
    {
      visited := visited + [book.value];
      var (it', b) := Next(c, it);
      it, book := it', b;
    }
    assert c.books[..it.index] == c.books;
    return Ok(visited);
  }

  /** The driver's three books come out in the order they were added. */
  method LibraryScenario() returns (r: Result<seq<string>, Fault>)
    ensures r == Ok(["The Great Gatsby", "1984", "To Kill a Mockingbird"])
  {
    var c := BookCollection([]);
    c := AddBook(c, "The Great Gatsby");
    c := AddBook(c, "1984");
    c := AddBook(c, "To Kill a Mockingbird");
    assert c.books == ["The Great Gatsby", "1984", "To Kill a Mockingbird"];
    r := Traverse(c);
  }
}
