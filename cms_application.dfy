/** cms/Application.php: the configuration holder and the article directory it derives. */
module CmsApplication {

  /** The configuration key of the article directory. */
  const ArticleDirectoryKey: string := "article_directory"

  predicate EndsWithSlash(s: string)
  {
    |s| > 0 && s[|s| - 1] == '/'
  }

  /**
   * The body of GetArticleDirectory: append "/" unless the last character
   * already is one. The result always ends in "/", is the directory itself
   * when that already does, and otherwise is the directory and one "/".
   */
  function NormalizeDirectory(dir: string): (r: string)
    ensures EndsWithSlash(r)
    ensures EndsWithSlash(dir) ==> r == dir
    ensures !EndsWithSlash(dir) ==> r == dir + "/"
  {
    if !EndsWithSlash(dir) then dir + "/" else dir
  }

  /** Normalising a normalised directory changes nothing. */
  lemma NormalizeDirectoryIdempotent(dir: string)
    ensures NormalizeDirectory(NormalizeDirectory(dir)) == NormalizeDirectory(dir)
  {
  }

  class Application {
    /** $_config: the configuration array, as keys and string values. */
    var config: map<string, string>

    constructor ()
      ensures config == map[]
    {
      config := map[];
    }

    /** SetConfig: replace the configuration. */
    method SetConfig(c: map<string, string>)
      modifies this
      ensures config == c
    {
      config := c;
    }

    /**
     * GetArticleDirectory: the configured directory with a trailing "/". A
     * missing key reads as null, which substr and `.=` treat as "", so the
     * result is then "/".
     */
    function GetArticleDirectory(): (dir: string)
      reads this
      ensures EndsWithSlash(dir)
      ensures ArticleDirectoryKey in config && EndsWithSlash(config[ArticleDirectoryKey]) ==> dir == config[ArticleDirectoryKey]
      ensures ArticleDirectoryKey in config && !EndsWithSlash(config[ArticleDirectoryKey]) ==> dir == config[ArticleDirectoryKey] + "/"
      ensures ArticleDirectoryKey !in config ==> dir == "/"
    {
      var dir := if ArticleDirectoryKey in config then config[ArticleDirectoryKey] else "";
      NormalizeDirectory(dir)
    }
  }
}
