/**
 * The article store as the controller sees it: a JSON array of objects with
 * open-ended fields, checked before it is written (saveToJson) and read
 * back with a missing file counting as no articles (readJsonFile).
 */
module Articles {
  import opened Wrappers
  import opened Decimal

  /** A JSON value as Jackson hands it over inside a Map<String, Object>. */
  datatype Value =
    | Null
    | Bool(b: bool)
    | Number(n: int)
    | Text(s: string)
    | List(items: seq<Value>)
    | Object(fields: map<string, Value>)

  /** One article record: field name to value. */
  type Article = map<string, Value>

  /** The three keys every article must carry; a key bound to null counts. */
  predicate HasRequiredFields(a: Article)
  {
    "title" in a && "folder" in a && "date" in a
  }

  /** Why a batch was refused; a position is 1-based. */
  datatype SaveError = EmptyBatch | MissingFields(position: nat)

  function SaveErrorMessage(e: SaveError): (text: string)
  {
    match e
    case EmptyBatch => "資料不能為空"
    case MissingFields(p) => "文章 " + NatToString(p) + " 缺少必要欄位 (title, folder, date)"
  }

  /** The refusal texts tell the client which refusal it was and, for a
      missing field, exactly which position. */
  lemma SaveErrorMessagesDistinct(e1: SaveError, e2: SaveError)
    requires SaveErrorMessage(e1) == SaveErrorMessage(e2)
    ensures e1 == e2
  {
    var prefix := "文章 ";
    var suffix := " 缺少必要欄位 (title, folder, date)";
    if e1.MissingFields? && e2.MissingFields? {
      var d1, d2 := NatToString(e1.position), NatToString(e2.position);
      var text := SaveErrorMessage(e1);
      assert text == prefix + d1 + suffix == prefix + d2 + suffix;
      assert |d1| == |d2|;
      assert text[|prefix|..|prefix| + |d1|] == d1;
      assert text[|prefix|..|prefix| + |d2|] == d2;
      NatToStringInjective(e1.position, e2.position);
    }
  }

  /** What saveToJson does with a batch: refuse it, or hand all of it to the
      writer (the JSON file write itself is not part of the model). */
  datatype SaveOutcome = Rejected(error: SaveError) | Write(batch: seq<Article>)

  /**
   * Validation of saveToJson. A null or empty batch is refused; otherwise
   * the articles are scanned in order and the first one that lacks a
   * required field is reported by its 1-based position. Only a batch that
   * passes entirely is written, and it is written unchanged.
   */
  method SaveToJson(articles: Option<seq<Article>>) returns (outcome: SaveOutcome)
    ensures outcome == Rejected(EmptyBatch) <==> articles.None? || articles.value == []
    ensures outcome.Write? <==>
      articles.Some? && articles.value != [] &&
      forall k :: 0 <= k < |articles.value| ==> HasRequiredFields(articles.value[k])
    ensures outcome.Write? ==> outcome.batch == articles.value
    ensures outcome.Rejected? && outcome.error.MissingFields? ==>
      articles.Some? &&
      1 <= outcome.error.position <= |articles.value| &&
      !HasRequiredFields(articles.value[outcome.error.position - 1]) &&
      forall k :: 0 <= k < outcome.error.position - 1 ==> HasRequiredFields(articles.value[k])
  {
    if articles.None? || articles.value == [] {
      return Rejected(EmptyBatch);
    }
    var batch := articles.value;
    var i := 0;
    while i < |batch|
      invariant 0 <= i <= |batch|
      invariant forall k :: 0 <= k < i ==> HasRequiredFields(batch[k])
    {
      var article := batch[i];
      if !("title" in article) || !("folder" in article) || !("date" in article) {
        return Rejected(MissingFields(i + 1));
      }
      i := i + 1;
    }
    outcome := Write(batch);
  }

  /** The store file as the file system and Jackson present it. A file that
      is not a JSON array of objects shows up as Unreadable with Jackson's
      message. */
  datatype StoreFile = Absent | Unreadable(error: string) | Present(articles: seq<Article>)

  /** readJsonFile: the parsed articles, no articles when there is no file,
      or the I/O or parse error. */
  function ReadStore(file: StoreFile): (r: Option<seq<Article>>)
    ensures r.None? <==> file.Unreadable?
    ensures file.Absent? ==> r == Some([])
    ensures file.Present? ==> r == Some(file.articles)
  {
    match file
    case Absent => Some([])
    case Unreadable(_) => None
    case Present(articles) => Some(articles)
  }

  /** The article's folder is a string (the cast at the read site succeeds). */
  predicate HasTextFolder(a: Article)
  {
    "folder" in a && a["folder"].Text?
  }

  /** The distinct folder names the articles refer to. */
  function FolderNames(articles: seq<Article>): (names: set<string>)
    requires forall a :: a in articles ==> HasTextFolder(a)
    ensures forall f :: f in names <==> exists a :: a in articles && HasTextFolder(a) && a["folder"] == Text(f)
  {
    set a: Article | a in articles && HasTextFolder(a) :: a["folder"].s
  }
}
