/**
 * cms/Article.php: an article backed by a file, whose contents are read on
 * first use and kept. The filesystem a read sees is the parameter `disk`.
 */
module CmsArticle {
  import opened Wrappers
  import opened Php
  import opened CmsFileReader

  /** The exceptions the constructor throws. */
  datatype ArticleError = BackingFileRequired | FileReaderRequired

  /**
   * The caching rule of GetContents: the cached value stands unless it is
   * loosely null, in which case the freshly fetched value replaces it.
   */
  function ReadThrough(cached: PhpValue, fetched: PhpValue): (r: PhpValue)
    ensures !LooselyNull(cached) ==> r == cached
    ensures LooselyNull(cached) ==> r == fetched
  {
    if LooselyNull(cached) then fetched else cached
  }

  /**
   * Once a read yields a value that is not loosely null, every later read
   * returns that same value, whatever the file holds by then.
   */
  lemma ReadOnce(cached: PhpValue, fetched: PhpValue, later: PhpValue)
    requires !LooselyNull(ReadThrough(cached, fetched))
    ensures ReadThrough(ReadThrough(cached, fetched), later) == ReadThrough(cached, fetched)
  {
  }

  /** An empty file or a failed read is not kept: the next read fetches again. */
  lemma EmptyIsRefetched(fetched: PhpValue, later: PhpValue)
    requires LooselyNull(fetched)
    ensures ReadThrough(ReadThrough(Null, fetched), later) == later
  {
  }

  class Article {
    /** $_backingFile: accepted only when not loosely null, so a non-empty path. */
    const backingFile: string
    const fileReader: FileReader
    /** $_id */
    var id: PhpValue
    /** $_contents */
    var contents: PhpValue
    /** How many times the article has called Fetch. */
    ghost var fetches: nat

    constructor Make(backingFile: string, fileReader: FileReader)
      ensures this.backingFile == backingFile && this.fileReader == fileReader
      ensures id == Null && contents == Null && fetches == 0
    {
      this.backingFile := backingFile;
      this.fileReader := fileReader;
      id := Null;
      contents := Null;
      fetches := 0;
    }

    /**
     * The constructor: a loosely null backing file (null, false, "") throws,
     * then a null file reader throws; otherwise the article starts with
     * neither id nor contents.
     */
    static method New(backingFile: PhpValue, fileReader: FileReader?) returns (r: Result<Article, ArticleError>)
      ensures LooselyNull(backingFile) ==> r == Err(BackingFileRequired)
      ensures !LooselyNull(backingFile) && fileReader == null ==> r == Err(FileReaderRequired)
      ensures !LooselyNull(backingFile) && fileReader != null ==>
        r.Ok? && fresh(r.value) && r.value.backingFile == backingFile.s && r.value.fileReader == fileReader
        && r.value.contents == Null && r.value.id == Null && r.value.fetches == 0
    {
      if LooselyNull(backingFile) {
        return Err(BackingFileRequired);
      }
      if fileReader == null {
        return Err(FileReaderRequired);
      }
      var article := new Article.Make(backingFile.s, fileReader);
      return Ok(article);
    }

    /** GetId */
    method GetId() returns (r: PhpValue)
      ensures r == id
    {
      return id;
    }

    /** SetId: GetId returns the new id afterwards. */
    method SetId(newId: PhpValue)
      modifies this
      ensures id == newId && contents == old(contents) && fetches == old(fetches)
    {
      id := newId;
    }

    /**
     * GetContents: fetch the backing file only when the cached contents are
     * loosely null, keep what was fetched, and return the cached contents.
     */
    method GetContents(disk: map<string, string>) returns (r: PhpValue)
      modifies this
      ensures contents == ReadThrough(old(contents), Fetch(disk, backingFile))
      ensures fetches == if LooselyNull(old(contents)) then old(fetches) + 1 else old(fetches)
      ensures r == contents && id == old(id)
    {
      if LooselyNull(contents) {
        var fetched := Fetch(disk, backingFile);
        fetches := fetches + 1;
        contents := fetched;
      }
      return contents;
    }

    /** SetContents: replace the cached contents. */
    method SetContents(newContents: PhpValue)
      modifies this
      ensures contents == newContents && id == old(id) && fetches == old(fetches)
    {
      contents := newContents;
    }
  }

  /**
   * Reading an article twice: the second read fetches again only when the
   * first one produced null, false or "", and otherwise returns the first
   * read's value unchanged.
   */
  method ReadTwice(article: Article, disk1: map<string, string>, disk2: map<string, string>)
    returns (first: PhpValue, second: PhpValue)
    modifies article
    ensures !LooselyNull(first) ==> second == first
    ensures LooselyNull(first) ==> second == Fetch(disk2, article.backingFile)
    ensures article.fetches == old(article.fetches) + (if LooselyNull(old(article.contents)) then 1 else 0)
                                                   + (if LooselyNull(first) then 1 else 0)
  {
    first := article.GetContents(disk1);
    second := article.GetContents(disk2);
  }
}
