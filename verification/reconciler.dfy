/**
 * Folder reconciliation (detectNewFolders): the folder names the store
 * refers to against the directories under the writeups root, and the
 * summary message built from the two differences (buildDetectionMessage).
 */
module Reconciler {
  import opened Ordering
  import opened Decimal
  import opened Responses
  import opened Articles

  /** The directory listing of the writeups root: absent (or not a
      directory), or the names of its immediate subdirectories. */
  datatype Listing = NoDirectory | Directories(names: set<string>)

  datatype Reconciliation = Reconciliation(newFolders: seq<string>, missingFolders: seq<string>)

  /**
   * newFolders: on disk but not stored; missingFolders: stored but not on
   * disk. Each is sorted ascending and so holds every such name once.
   */
  function Reconcile(existing: set<string>, actual: set<string>): (r: Reconciliation)
    ensures forall f :: f in r.newFolders <==> f in actual && f !in existing
    ensures forall f :: f in r.missingFolders <==> f in existing && f !in actual
    ensures StrictlyAscending(r.newFolders) && StrictlyAscending(r.missingFolders)
    ensures |r.newFolders| == |actual - existing| && |r.missingFolders| == |existing - actual|
  {
    Reconciliation(SortAscending(actual - existing), SortAscending(existing - actual))
  }

  /** Neither list repeats a name, they share no name, together they hold
      exactly the names in one set but not the other, and a name in both
      sets is in neither list. */
  lemma ReconcilePartitions(existing: set<string>, actual: set<string>)
    ensures var r := Reconcile(existing, actual);
      && (forall i, j :: 0 <= i < j < |r.newFolders| ==> r.newFolders[i] != r.newFolders[j])
      && (forall i, j :: 0 <= i < j < |r.missingFolders| ==> r.missingFolders[i] != r.missingFolders[j])
      && (forall f :: !(f in r.newFolders && f in r.missingFolders))
      && (forall f :: f in r.newFolders || f in r.missingFolders <==>
            f in (actual - existing) + (existing - actual))
      && (forall f :: f in existing && f in actual ==> f !in r.newFolders && f !in r.missingFolders)
  {
    var r := Reconcile(existing, actual);
    AscendingHasNoDuplicates(r.newFolders);
    AscendingHasNoDuplicates(r.missingFolders);
  }

  /** The lists are the only ascending duplicate-free answers: any strictly
      ascending list of exactly the new (missing) names is newFolders
      (missingFolders). */
  lemma ReconcileUnique(existing: set<string>, actual: set<string>, newFolders: seq<string>, missingFolders: seq<string>)
    requires StrictlyAscending(newFolders) && StrictlyAscending(missingFolders)
    requires forall f :: f in newFolders <==> f in actual && f !in existing
    requires forall f :: f in missingFolders <==> f in existing && f !in actual
    ensures Reconcile(existing, actual) == Reconciliation(newFolders, missingFolders)
  {
    SortAscendingUnique(actual - existing, newFolders);
    SortAscendingUnique(existing - actual, missingFolders);
  }

  const NothingFound := "沒有發現新增或遺失的資料夾"

  function NewClause(count: nat): (clause: string)
  {
    "發現 " + NatToString(count) + " 個新資料夾"
  }

  function MissingClause(count: nat): (clause: string)
  {
    "發現 " + NatToString(count) + " 個遺失資料夾"
  }

  /** The summary: the new-folder clause and the missing-folder clause, those
      whose count is not zero, in that order, joined by a full-width
      semicolon; the fixed text when both counts are zero. */
  function DetectionMessage(newCount: nat, missingCount: nat): (msg: string)
  {
    if newCount == 0 && missingCount == 0 then NothingFound
    else if missingCount == 0 then NewClause(newCount)
    else if newCount == 0 then MissingClause(missingCount)
    else NewClause(newCount) + "；" + MissingClause(missingCount)
  }

  /**
   * buildDetectionMessage, appending to a builder step by step: the
   * new-folder clause, then the separator if the builder is not empty, then
   * the missing-folder clause, and the fixed text if nothing was appended.
   */
  method BuildDetectionMessage(newFolders: seq<string>, missingFolders: seq<string>) returns (message: string)
    ensures message == DetectionMessage(|newFolders|, |missingFolders|)
  {
    message := "";
    if |newFolders| != 0 {
      message := message + "發現 " + NatToString(|newFolders|) + " 個新資料夾";
      assert message == NewClause(|newFolders|);
    }
    if |missingFolders| != 0 {
      if |message| > 0 {
        message := message + "；";
      }
      ghost var opening := message;
      assert opening == if |newFolders| != 0 then NewClause(|newFolders|) + "；" else "";
      message := message + "發現 " + NatToString(|missingFolders|) + " 個遺失資料夾";
      assert message == opening + MissingClause(|missingFolders|);
    }
    if |message| == 0 {
      message := message + NothingFound;
      assert message == NothingFound;
    }
  }

  /** The fixed text is the message exactly when there is nothing to report. */
  lemma NothingFoundExactlyWhenEmpty(newCount: nat, missingCount: nat)
    ensures DetectionMessage(newCount, missingCount) == NothingFound <==> newCount == 0 && missingCount == 0
  {
    var msg := DetectionMessage(newCount, missingCount);
    if newCount != 0 || missingCount != 0 {
      assert msg[0] == '發';
      assert NothingFound[0] == '沒';
    }
  }

  lemma NoSeparatorInClause(prefix: string, count: nat, suffix: string)
    requires '；' !in prefix && '；' !in suffix
    ensures '；' !in prefix + NatToString(count) + suffix
  {
    var digits := NatToString(count);
    assert forall k :: 0 <= k < |digits| ==> digits[k] != '；';
  }

  /** The full-width semicolon appears exactly when both counts are non-zero. */
  lemma SeparatorExactlyWhenBoth(newCount: nat, missingCount: nat)
    ensures '；' in DetectionMessage(newCount, missingCount) <==> newCount > 0 && missingCount > 0
  {
    NoSeparatorInClause("發現 ", newCount, " 個新資料夾");
    NoSeparatorInClause("發現 ", missingCount, " 個遺失資料夾");
    var msg := DetectionMessage(newCount, missingCount);
    if newCount > 0 && missingCount > 0 {
      assert msg[|NewClause(newCount)|] == '；';
    }
  }

  /** The count written in a clause: the digits after the opening "發現 ". */
  function ClauseCount(clause: string): (count: nat)
  {
    if |clause| >= 3 && clause[..3] == "發現 " then
      var digits := LeadingDigits(clause[3..]);
      ParseDecimal(digits)
    else 0
  }

  /** The longest prefix of s made of digits. */
  function LeadingDigits(s: string): (d: string)
    ensures AllDigits(d) && d <= s
  {
    if s != [] && IsDigit(s[0]) then [s[0]] + LeadingDigits(s[1..]) else []
  }

  lemma {:induction false} LeadingDigitsOf(digits: string, rest: string)
    requires AllDigits(digits)
    requires rest != [] && !IsDigit(rest[0])
    ensures LeadingDigits(digits + rest) == digits
  {
    if digits == [] {
      assert digits + rest == rest;
    } else {
      assert (digits + rest)[1..] == digits[1..] + rest;
      LeadingDigitsOf(digits[1..], rest);
    }
  }

  lemma ClauseCountOf(count: nat, suffix: string, rest: string)
    requires suffix != [] && suffix[0] == ' '
    ensures ClauseCount("發現 " + NatToString(count) + suffix + rest) == count
  {
    var clause := "發現 " + NatToString(count) + suffix + rest;
    assert clause[3..] == NatToString(count) + (suffix + rest);
    LeadingDigitsOf(NatToString(count), suffix + rest);
    ParseNatToString(count);
  }

  /**
   * Order and counts: the message opens with the new-folder clause when
   * there are new folders, the missing-folder clause closes it when there
   * are missing folders, and the counts read back from the message are the
   * list sizes (the missing count after the separator when both are given).
   */
  lemma DetectionMessageClauses(newCount: nat, missingCount: nat)
    ensures var msg := DetectionMessage(newCount, missingCount);
      && (newCount > 0 ==> NewClause(newCount) <= msg && ClauseCount(msg) == newCount)
      && (newCount == 0 && missingCount > 0 ==> msg == MissingClause(missingCount) && ClauseCount(msg) == missingCount)
      && (missingCount > 0 ==>
            var tail := msg[|msg| - |MissingClause(missingCount)|..];
            tail == MissingClause(missingCount) && ClauseCount(tail) == missingCount)
      && (newCount > 0 && missingCount > 0 ==>
            msg[|NewClause(newCount)|] == '；' && msg[|NewClause(newCount)| + 1..] == MissingClause(missingCount))
  {
    var msg := DetectionMessage(newCount, missingCount);
    if newCount > 0 {
      if missingCount == 0 {
        assert msg == "發現 " + NatToString(newCount) + " 個新資料夾" + "";
      } else {
        assert msg == "發現 " + NatToString(newCount) + " 個新資料夾" + ("；" + MissingClause(missingCount));
      }
      ClauseCountOf(newCount, " 個新資料夾", if missingCount == 0 then "" else "；" + MissingClause(missingCount));
    }
    if missingCount > 0 {
      assert MissingClause(missingCount) == "發現 " + NatToString(missingCount) + " 個遺失資料夾" + "";
      ClauseCountOf(missingCount, " 個遺失資料夾", "");
    }
  }

  /**
   * detectNewFolders: read the store (an unreadable store is an error, a
   * missing one holds no articles), then look at the writeups root (absent:
   * an error), then report the two differences and the summary.
   */
  function DetectNewFolders(store: StoreFile, listing: Listing): (response: ApiResponse)
    requires store.Present? ==> forall a :: a in store.articles ==> HasTextFolder(a)
    ensures store.Unreadable? ==> response == Error("偵測失敗: " + store.error)
    ensures !store.Unreadable? && listing.NoDirectory? ==> response == Error("Writeups 目錄不存在")
    ensures response.Success? <==> !store.Unreadable? && listing.Directories?
    ensures response.Success? ==>
      var existing := FolderNames(ReadStore(store).value);
      && response.data.Detection?
      && (forall f :: f in response.data.newFolders <==> f in listing.names && f !in existing)
      && (forall f :: f in response.data.missingFolders <==> f in existing && f !in listing.names)
      && StrictlyAscending(response.data.newFolders)
      && StrictlyAscending(response.data.missingFolders)
      && response.message == DetectionMessage(|response.data.newFolders|, |response.data.missingFolders|)
  {
    match ReadStore(store)
    case None => Error("偵測失敗: " + store.error)
    case Some(articles) =>
      var existing := FolderNames(articles);
      match listing
      case NoDirectory => Error("Writeups 目錄不存在")
      case Directories(actual) =>
        var r := Reconcile(existing, actual);
        Success(DetectionMessage(|r.newFolders|, |r.missingFolders|), Detection(r.newFolders, r.missingFolders))
  }

  /** With no store file every directory on disk is new, in ascending order,
      and nothing is missing. */
  lemma MissingStoreFile(actual: set<string>)
    ensures var response := DetectNewFolders(Absent, Directories(actual));
      && response.Success?
      && response.data == Detection(SortAscending(actual), [])
      && response.message == DetectionMessage(|actual|, 0)
  {
    assert FolderNames([]) == {};
    assert actual - {} == actual;
    assert {} - actual == {};
  }
}

/** A worked case of folder reconciliation. */
module ReconcilerExamples {
  import opened Ordering
  import opened Reconciler

  /** Stored "Alpha", "Alpha", "Beta" against directories "alpha" and
      "Gamma": matching is exact and upper case sorts first, so both
      directories are new and both stored names are missing. */
  lemma ExactMatchAndOrder()
    ensures Reconcile({"Alpha", "Beta"}, {"alpha", "Gamma"})
         == Reconciliation(["Gamma", "alpha"], ["Alpha", "Beta"])
  {
    assert Less("Gamma", "alpha");
    assert Less("Alpha", "Beta");
    assert "alpha" != "Alpha" && "Gamma" != "Beta" && "alpha" != "Beta" && "Gamma" != "Alpha";
    ReconcileUnique({"Alpha", "Beta"}, {"alpha", "Gamma"}, ["Gamma", "alpha"], ["Alpha", "Beta"]);
  }
}
