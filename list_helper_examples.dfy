/**
 * Small worked inputs for the helpers of utils/list_helper.js, showing the
 * behaviour the code has on ties and on repeated authors.
 */
module ListHelperExamples {
  import opened ListHelper

  /** totalLikes of an empty list is 0, and of three records the plain sum. */
  lemma TotalLikesExamples()
    ensures TotalLikes([]) == 0
    ensures TotalLikes([Blog("a5", "A", 5), Blog("b10", "B", 10), Blog("c2", "C", 2)]) == 17
  {
  }

  /** favoriteBlog picks the record with the most likes. */
  lemma FavoriteBlogPicksMaximum()
    ensures FavoriteBlog([Blog("a5", "A", 5), Blog("b10", "B", 10), Blog("c2", "C", 2)]) == Blog("b10", "B", 10)
  {
    FavoriteBlogIsLastMaximum([Blog("a5", "A", 5), Blog("b10", "B", 10), Blog("c2", "C", 2)], 1);
  }

  /**
   * On a tie favoriteBlog returns the later record, not the first one, even
   * when both have the same author.
   */
  lemma FavoriteBlogTieKeepsLater()
    ensures FavoriteBlog([Blog("First", "A", 5), Blog("Second", "A", 5)]) == Blog("Second", "A", 5)
  {
    FavoriteBlogIsLastMaximum([Blog("First", "A", 5), Blog("Second", "A", 5)], 1);
  }

  /**
   * mostBlogs returns the last author to appear, even when another author
   * has more records: "A" wrote two of the three records, "B" one.
   */
  lemma MostBlogsIgnoresCounts()
    ensures var s := [Blog("a1", "A", 1), Blog("a2", "A", 2), Blog("b3", "B", 3)];
            MostBlogs(s) == AuthorBlogs("B", 1) && Count("A", s) == 2
  {
    var s := [Blog("a1", "A", 1), Blog("a2", "A", 2), Blog("b3", "B", 3)];
    assert s[..2] == [Blog("a1", "A", 1), Blog("a2", "A", 2)];
    assert s[..1] == [Blog("a1", "A", 1)];
    assert CountByAuthor(s[..1]) == CountObject(["A"], map["A" := 1]);
    assert CountByAuthor(s[..2]) == CountObject(["A"], map["A" := 2]);
    assert CountByAuthor(s) == CountObject(["A", "B"], map["A" := 2, "B" := 1]);
    assert Entries(CountByAuthor(s)) == [AuthorBlogs("A", 2), AuthorBlogs("B", 1)];
    ReduceCountFieldIsLast(EmptyObject, Entries(CountByAuthor(s)));
    CountByAuthorSpec(s);
  }

  /** The corrected fold returns the most frequent author on the same input. */
  lemma MostBlogsFixedPicksMostFrequent()
    ensures MostBlogsFixed([Blog("a1", "A", 1), Blog("a2", "A", 2), Blog("b3", "B", 3)]) == AuthorBlogs("A", 2)
  {
    var s := [Blog("a1", "A", 1), Blog("a2", "A", 2), Blog("b3", "B", 3)];
    assert s[..2] == [Blog("a1", "A", 1), Blog("a2", "A", 2)];
    assert s[..1] == [Blog("a1", "A", 1)];
    assert CountByAuthor(s[..1]) == CountObject(["A"], map["A" := 1]);
    assert CountByAuthor(s[..2]) == CountObject(["A"], map["A" := 2]);
    assert CountByAuthor(s) == CountObject(["A", "B"], map["A" := 2, "B" := 1]);
    var es := Entries(CountByAuthor(s));
    assert es == [AuthorBlogs("A", 2), AuthorBlogs("B", 1)];
    assert es[..1] == [AuthorBlogs("A", 2)];
    assert es[..1][..0] == [];
    assert Reduce(BlogsField, EmptyObject, es[..1]) == AuthorBlogs("A", 2);
    assert Reduce(BlogsField, EmptyObject, es) == AuthorBlogs("A", 2);
  }

  /** With one record per author, mostBlogs returns the second author. */
  lemma MostBlogsTieKeepsLater()
    ensures MostBlogs([Blog("a0", "A", 0), Blog("b0", "B", 0)]) == AuthorBlogs("B", 1)
  {
    var s := [Blog("a0", "A", 0), Blog("b0", "B", 0)];
    assert s[..1] == [Blog("a0", "A", 0)];
    assert CountByAuthor(s[..1]) == CountObject(["A"], map["A" := 1]);
    assert CountByAuthor(s) == CountObject(["A", "B"], map["A" := 1, "B" := 1]);
    assert Entries(CountByAuthor(s)) == [AuthorBlogs("A", 1), AuthorBlogs("B", 1)];
    ReduceCountFieldIsLast(EmptyObject, Entries(CountByAuthor(s)));
  }

  /** mostLikes reports one record's likes (7), not the author's total (12). */
  lemma MostLikesSingleRecord()
    ensures var s := [Blog("a5", "A", 5), Blog("b3", "B", 3), Blog("a7", "A", 7)];
            MostLikes(s) == AuthorLikes("A", 7) && LikesOf("A", s) == 12
  {
    var s := [Blog("a5", "A", 5), Blog("b3", "B", 3), Blog("a7", "A", 7)];
    MostLikesIsFirstMaximum(s, 2);
    assert s[..2] == [Blog("a5", "A", 5), Blog("b3", "B", 3)];
    assert s[..2][..1] == [Blog("a5", "A", 5)];
    assert s[..2][..1][..0] == [];
    assert LikesOf("A", s[..2][..1]) == 5;
    assert LikesOf("A", s[..2]) == 5;
  }
}
