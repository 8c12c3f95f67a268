/**
 * Folder creation (createFolder): the name check, the trimming and
 * stripping of characters a path may not hold, the collision check and the
 * README template written into a new folder.
 */
module FolderCreation {
  import opened Wrappers
  import opened Responses

  /** The characters String.trim() removes from both ends: U+0000 to U+0020. */
  predicate IsTrimmable(c: char)
  {
    c <= ' '
  }

  /** How many trimmable characters open s. */
  function LeadingTrimmable(s: string): (n: nat)
    ensures n <= |s|
    ensures forall k :: 0 <= k < n ==> IsTrimmable(s[k])
    ensures n < |s| ==> !IsTrimmable(s[n])
  {
    if s != [] && IsTrimmable(s[0]) then 1 + LeadingTrimmable(s[1..]) else 0
  }

  /** How many trimmable characters close s. */
  function TrailingTrimmable(s: string): (n: nat)
    ensures n <= |s|
    ensures forall k :: |s| - n <= k < |s| ==> IsTrimmable(s[k])
    ensures n < |s| ==> !IsTrimmable(s[|s| - 1 - n])
  {
    if s != [] && IsTrimmable(s[|s| - 1]) then 1 + TrailingTrimmable(s[..|s| - 1]) else 0
  }

  /** r stands at offset i of s, and everything of s around it is trimmable. */
  predicate TrimmedAt(s: string, r: string, i: int)
  {
    && 0 <= i && i + |r| <= |s|
    && s[i..i + |r|] == r
    && (forall k :: 0 <= k < i ==> IsTrimmable(s[k]))
    && (forall k :: i + |r| <= k < |s| ==> IsTrimmable(s[k]))
  }

  /** String.trim(): s without its trimmable opening and closing runs. */
  function Trim(s: string): (r: string)
    ensures exists i :: TrimmedAt(s, r, i)
    ensures r != [] ==> !IsTrimmable(r[0]) && !IsTrimmable(r[|r| - 1])
    ensures r == [] <==> forall k :: 0 <= k < |s| ==> IsTrimmable(s[k])
  {
    var start := LeadingTrimmable(s);
    var rest := s[start..];
    var r := rest[..|rest| - TrailingTrimmable(rest)];
    assert TrimmedAt(s, r, start);
    r
  }

  /** The characters the pattern [\\/:*?"<>|] removes. */
  predicate IsForbidden(c: char)
  {
    c in {'\\', '/', ':', '*', '?', '"', '<', '>', '|'}
  }

  /** replaceAll of every forbidden character by nothing. */
  function StripForbidden(s: string): (r: string)
    ensures forall k :: 0 <= k < |r| ==> !IsForbidden(r[k])
    ensures |r| <= |s|
  {
    if s == [] then []
    else if IsForbidden(s[0]) then StripForbidden(s[1..])
    else [s[0]] + StripForbidden(s[1..])
  }

  /** a can be obtained from b by deleting characters. */
  predicate IsSubsequence(a: string, b: string)
  {
    if a == [] then true
    else if b == [] then false
    else if a[0] == b[0] then IsSubsequence(a[1..], b[1..])
    else IsSubsequence(a, b[1..])
  }

  /** Stripping keeps the order of what it keeps. */
  lemma {:induction false} StripIsSubsequence(s: string)
    ensures IsSubsequence(StripForbidden(s), s)
  {
    if s != [] {
      StripIsSubsequence(s[1..]);
    }
  }

  /** Stripping keeps every occurrence of every other character. */
  lemma {:induction false} StripKeepsOthers(s: string)
    ensures forall c :: !IsForbidden(c) ==> multiset(StripForbidden(s))[c] == multiset(s)[c]
  {
    if s != [] {
      StripKeepsOthers(s[1..]);
      assert s == [s[0]] + s[1..];
    }
  }

  /** A name with nothing to strip is left as it is, and only such a name. */
  lemma {:induction false} StripIdentity(s: string)
    ensures StripForbidden(s) == s <==> forall k :: 0 <= k < |s| ==> !IsForbidden(s[k])
  {
    if s != [] && forall k :: 0 <= k < |s| ==> !IsForbidden(s[k]) {
      assert forall k :: 0 <= k < |s[1..]| ==> !IsForbidden(s[1..][k]);
      StripIdentity(s[1..]);
    }
  }

  /** Stripping a concatenation strips each part. */
  lemma {:induction false} StripAppend(a: string, b: string)
    ensures StripForbidden(a + b) == StripForbidden(a) + StripForbidden(b)
  {
    if a != [] {
      assert (a + b)[1..] == a[1..] + b;
      StripAppend(a[1..], b);
    } else {
      assert a + b == b;
    }
  }

  /** Stripping twice strips nothing more. */
  lemma StripIdempotent(s: string)
    ensures StripForbidden(StripForbidden(s)) == StripForbidden(s)
  {
    StripIdentity(StripForbidden(s));
  }

  /** The name the folder gets: trimmed, then stripped. */
  function SanitizeFolderName(name: string): (r: string)
    ensures forall k :: 0 <= k < |r| ==> !IsForbidden(r[k])
    ensures IsSubsequence(r, Trim(name))
    ensures forall c :: !IsForbidden(c) ==> multiset(r)[c] == multiset(Trim(name))[c]
  {
    StripIsSubsequence(Trim(name));
    StripKeepsOthers(Trim(name));
    StripForbidden(Trim(name))
  }

  /** part occurs somewhere in text. */
  predicate Contains(text: string, part: string)
  {
    part <= text || (text != [] && Contains(text[1..], part))
  }

  lemma {:induction false} ContainsAfter(before: string, text: string, part: string)
    requires part <= text
    ensures Contains(before + text, part)
  {
    if before != [] {
      assert (before + text)[1..] == before[1..] + text;
      ContainsAfter(before[1..], text, part);
    }
  }

  function Heading(name: string): (line: string)
  {
    "# " + name + "\n\n"
  }

  function IntroLine(name: string): (line: string)
  {
    "這是關於 " + name + " 的文章。"
  }

  /** The README.md template of a new folder: the name as heading, an
      introduction section naming it again, and a content section with a
      placeholder line. */
  function Readme(name: string): (text: string)
    ensures Heading(name) <= text
    ensures Contains(text, "## 簡介\n\n")
    ensures Contains(text, IntroLine(name))
    ensures Contains(text, "## 內容\n\n請在此處編寫內容...\n")
  {
    var section := "## 簡介\n\n";
    var intro := IntroLine(name) + "\n\n";
    var content := "## 內容\n\n請在此處編寫內容...\n";
    ContainsAfter(Heading(name), section + intro + content, section);
    ContainsAfter(Heading(name) + section, intro + content, IntroLine(name));
    ContainsAfter(Heading(name) + section + intro, content, content);
    assert Heading(name) + (section + intro + content) == Heading(name) + section + intro + content;
    assert Heading(name) + section + (intro + content) == Heading(name) + section + intro + content;
    Heading(name) + section + intro + content
  }

  const EmptyNameMessage := "資料夾名稱不能為空"

  /** What createFolder asks the file system for: the folder (with any
      missing parents) and its README.md. */
  datatype FolderWrite = FolderWrite(folder: string, readme: string)

  datatype CreateOutcome = CreateOutcome(response: ApiResponse, request: Option<FolderWrite>)

  /**
   * createFolder. folderName is the request's "folderName" (None when it is
   * absent or null); existing holds the names whose path under the writeups
   * root already exists; ioError is the failure, if any, of creating the
   * folder or writing its README.
   */
  function CreateFolder(folderName: Option<string>, existing: set<string>, ioError: Option<string>): (outcome: CreateOutcome)
    ensures folderName.None? || Trim(folderName.value) == [] ==>
      outcome == CreateOutcome(Error(EmptyNameMessage), None)
    ensures outcome.request.Some? <==>
      folderName.Some? && Trim(folderName.value) != [] && SanitizeFolderName(folderName.value) !in existing
    ensures folderName.Some? && Trim(folderName.value) != [] && SanitizeFolderName(folderName.value) in existing ==>
      outcome.response == Error("資料夾「" + SanitizeFolderName(folderName.value) + "」已存在")
    ensures outcome.request.Some? ==>
      var name := outcome.request.value.folder;
      && name == SanitizeFolderName(folderName.value)
      && name !in existing
      && (forall k :: 0 <= k < |name| ==> !IsForbidden(name[k]))
      && outcome.request.value.readme == Readme(name)
      && Heading(name) <= outcome.request.value.readme
      && Contains(outcome.request.value.readme, IntroLine(name))
    ensures outcome.response.Success? <==> outcome.request.Some? && ioError.None?
    ensures outcome.response.Success? ==> outcome.response.data == FolderName(outcome.request.value.folder)
    ensures outcome.response.Success? ==>
      outcome.response.message == "成功建立資料夾「" + outcome.request.value.folder + "」並建立 README.md"
    ensures outcome.request.Some? && ioError.Some? ==> outcome.response == Error("建立資料夾失敗: " + ioError.value)
  {
    if folderName.None? || Trim(folderName.value) == [] then
      CreateOutcome(Error(EmptyNameMessage), None)
    else
      var name := SanitizeFolderName(folderName.value);
      if name in existing then
        CreateOutcome(Error("資料夾「" + name + "」已存在"), None)
      else
        var readme := Readme(name);
        var request := Some(FolderWrite(name, readme));
        match ioError
        case Some(e) => CreateOutcome(Error("建立資料夾失敗: " + e), request)
        case None => CreateOutcome(Success("成功建立資料夾「" + name + "」並建立 README.md", FolderName(name)), request)
  }
}

/** Worked cases of folder creation. */
module FolderCreationExamples {
  import opened Wrappers
  import opened Responses
  import opened FolderCreation

  lemma TrimTestName()
    ensures Trim("Test/Name") == "Test/Name"
  {
    assert LeadingTrimmable("Test/Name") == 0 && TrailingTrimmable("Test/Name") == 0;
  }

  lemma StripAroundSlash(a: string, b: string)
    requires forall k :: 0 <= k < |a| ==> !IsForbidden(a[k])
    requires forall k :: 0 <= k < |b| ==> !IsForbidden(b[k])
    ensures StripForbidden(a + "/" + b) == a + b
  {
    StripIdentity(a);
    StripIdentity(b);
    var slash := StripForbidden("/");
    assert slash == "";
    StripAppend(a, "/");
    var left := StripForbidden(a + "/");
    assert left == a;
    StripAppend(a + "/", b);
  }

  lemma StripTestName()
    ensures StripForbidden("Test/Name") == "TestName"
  {
    assert "Test/Name" == "Test" + "/" + "Name";
    StripAroundSlash("Test", "Name");
  }

  /** "Test/Name" loses its slash and becomes the folder "TestName". */
  lemma SlashIsStripped(existing: set<string>)
    requires "TestName" !in existing
    ensures var outcome := CreateFolder(Some("Test/Name"), existing, None);
      && outcome.request.Some?
      && outcome.request.value.folder == "TestName"
      && Heading("TestName") <= outcome.request.value.readme
      && outcome.response.Success?
      && outcome.response.data == FolderName("TestName")
  {
    TrimTestName();
    StripTestName();
    var outcome := CreateFolder(Some("Test/Name"), existing, None);
    assert outcome.request.Some?;
    var name := outcome.request.value.folder;
    assert name == SanitizeFolderName("Test/Name");
  }

  /** The blank check comes before stripping: "///" passes it and is
      sanitised to the empty name, which is then checked for collision. */
  lemma StrippedNameMayBeEmpty(existing: set<string>)
    ensures SanitizeFolderName("///") == ""
    ensures var outcome := CreateFolder(Some("///"), existing, None);
      && outcome.response != Error(EmptyNameMessage)
      && ("" in existing ==> outcome == CreateOutcome(Error("資料夾「」已存在"), None))
      && ("" !in existing ==> outcome.request == Some(FolderWrite("", Readme(""))))
  {
    assert Trim("///") == "///";
    assert StripForbidden("///") == "";
  }

  /** Once a folder has been created, asking for the same name again is
      refused and asks the file system for nothing. */
  lemma SecondCreateRefused(folderName: string, existing: set<string>, ioError: Option<string>, again: Option<string>)
    requires CreateFolder(Some(folderName), existing, ioError).request.Some?
    ensures var name := CreateFolder(Some(folderName), existing, ioError).request.value.folder;
      CreateFolder(Some(folderName), existing + {name}, again) == CreateOutcome(Error("資料夾「" + name + "」已存在"), None)
  {
  }
}
