/**
 * The category registry: the descriptors found on disk under
 * data/<lang>/<category>/info.json, grouped by language and sorted by
 * their Order field (initData in main.go).
 *
 * The filesystem and the JSON decoder are abstract input: each discovered
 * file is its path, split into segments, and the outcome of reading and
 * decoding it.
 */
module Registry {
  import opened Wrappers

  /** headData: the head metadata of a page, embedded in every category. */
  datatype Head = Head(title: string, description: string, keywords: string, lang: string)

  /** categoriesData: one category descriptor. */
  datatype Category = Category(name: string, slug: string, order: int, lang: string, head: Head)

  /** A file path as its slash-separated segments. */
  type Path = seq<string>

  /** What reading and decoding one info.json produced. */
  datatype Content = Unreadable | Malformed | Parsed(record: Category)

  /** One file returned by the glob, with what reading it yields. */
  datatype DescriptorFile = DescriptorFile(path: Path, content: Content)

  /** Why loading aborted: the read failed, or the JSON did not decode. */
  datatype LoadError = ReadFailed | DecodeFailed

  /** The registry: language code to that language's categories. */
  type Categories = map<string, seq<Category>>

  /** The path shape of the glob data/<lang>/<category>/info.json. */
  predicate MatchesGlob(p: Path) {
    |p| == 4 && p[0] == "data" && p[3] == "info.json"
  }

  /** Every path is one the glob can return. */
  predicate Discovered(files: seq<DescriptorFile>) {
    forall i :: 0 <= i < |files| ==> MatchesGlob(files[i].path)
  }

  /** path.Dir on a segment sequence: drop the last segment. */
  function Dir(p: Path): Path
    requires |p| > 0
  {
    p[..|p| - 1]
  }

  /** path.Base on a segment sequence: the last segment. */
  function Base(p: Path): string
    requires |p| > 0
  {
    p[|p| - 1]
  }

  /** The language of a descriptor: the directory two levels above the file. */
  function LangOf(p: Path): (lang: string)
    requires |p| >= 3
    ensures MatchesGlob(p) ==> lang == p[1]
  {
    Base(Dir(Dir(p)))
  }

  /** The decoded record with Lang overwritten from the path. */
  function Stamp(file: DescriptorFile): (c: Category)
    requires file.content.Parsed? && |file.path| >= 3
    ensures c.lang == LangOf(file.path)
    ensures c.(lang := file.content.record.lang) == file.content.record
  {
    file.content.record.(lang := LangOf(file.path))
  }

  /** The error a failed file reports. */
  function ErrorOf(content: Content): LoadError
    requires !content.Parsed?
  {
    if content.Unreadable? then ReadFailed else DecodeFailed
  }

  /**
   * The records of all files in discovery order, each stamped with its
   * language, or the error of the first file that fails: no partial result.
   */
  function Decoded(files: seq<DescriptorFile>): (r: Result<seq<Category>, LoadError>)
    requires Discovered(files)
    ensures r.Success? <==> forall i :: 0 <= i < |files| ==> files[i].content.Parsed?
    ensures r.Success? ==>
      |r.value| == |files| && forall i :: 0 <= i < |files| ==> r.value[i] == Stamp(files[i])
    ensures r.Failure? ==>
      exists k :: 0 <= k < |files| && !files[k].content.Parsed? &&
        r.error == ErrorOf(files[k].content) &&
        (forall i :: 0 <= i < k ==> files[i].content.Parsed?)
  {
    if files == [] then Success([])
    else
      var last := files[|files| - 1];
      match Decoded(files[..|files| - 1])
      case Failure(e) => Failure(e)
      case Success(done) =>
        match last.content
        case Unreadable => Failure(ReadFailed)
        case Malformed => Failure(DecodeFailed)
        case Parsed(_) => Success(done + [Stamp(last)])
  }

  /** The languages that occur among the records. */
  function LangsOf(cs: seq<Category>): set<string> {
    set i | 0 <= i < |cs| :: cs[i].lang
  }

  /** The records of one language, in their original order. */
  function ForLang(cs: seq<Category>, l: string): (r: seq<Category>)
    ensures forall i :: 0 <= i < |r| ==> r[i].lang == l
    ensures r == [] <==> l !in LangsOf(cs)
  {
    if cs == [] then []
    else
      var last := cs[|cs| - 1];
      ForLang(cs[..|cs| - 1], l) + (if last.lang == l then [last] else [])
  }

  /** The records grouped by language, before sorting. */
  function Grouped(cs: seq<Category>): Categories {
    map l | l in LangsOf(cs) :: ForLang(cs, l)
  }

  /** Indexing the registry: a language with no entry yields the empty list. */
  function Lookup(reg: Categories, l: string): (r: seq<Category>)
    ensures l in reg ==> r == reg[l]
    ensures l !in reg ==> r == []
  {
    if l in reg then reg[l] else []
  }

  /** Non-decreasing by Order; equal Orders may come in any order. */
  ghost predicate SortedByOrder(s: seq<Category>) {
    forall i, j :: 0 <= i < j < |s| ==> s[i].order <= s[j].order
  }

  /**
   * reg is a registry of the records: one key per language that occurs, each
   * list sorted by Order and holding exactly that language's records.
   */
  ghost predicate IsRegistryOf(reg: Categories, recs: seq<Category>) {
    && reg.Keys == LangsOf(recs)
    && forall l :: l in reg ==>
         SortedByOrder(reg[l]) && multiset(reg[l]) == multiset(ForLang(recs, l))
  }

  /** Each record is counted in its own language's list, and only there. */
  lemma {:induction false} ForLangCounts(cs: seq<Category>, l: string, c: Category)
    ensures multiset(ForLang(cs, l))[c] == if c.lang == l then multiset(cs)[c] else 0
  {
    if cs != [] {
      var init := cs[..|cs| - 1];
      ForLangCounts(init, l, c);
      assert cs == init + [cs[|cs| - 1]];
    }
  }

  /** Appending one record adds its language to the languages present. */
  lemma LangsSnoc(cs: seq<Category>, c: Category)
    ensures LangsOf(cs + [c]) == LangsOf(cs) + {c.lang}
  {
    var cs' := cs + [c];
    forall l | l in LangsOf(cs') ensures l in LangsOf(cs) + {c.lang} {
      var i :| 0 <= i < |cs'| && cs'[i].lang == l;
      if i < |cs| { assert cs[i] == cs'[i]; }
    }
    forall l | l in LangsOf(cs) ensures l in LangsOf(cs') {
      var i :| 0 <= i < |cs| && cs[i].lang == l;
      assert cs'[i] == cs[i];
    }
    assert cs'[|cs|] == c;
  }

  /** Appending one record extends its language's list and no other. */
  lemma GroupedSnoc(cs: seq<Category>, c: Category)
    ensures Grouped(cs + [c]) == Grouped(cs)[c.lang := Lookup(Grouped(cs), c.lang) + [c]]
  {
    var cs' := cs + [c];
    var before, after := Grouped(cs), Grouped(cs');
    var expected := before[c.lang := Lookup(before, c.lang) + [c]];
    assert cs'[..|cs'| - 1] == cs;
    LangsSnoc(cs, c);
    assert after.Keys == expected.Keys;
    forall l | l in after ensures after[l] == expected[l] {
      assert ForLang(cs', l) == ForLang(cs, l) + (if c.lang == l then [c] else []);
    }
  }

  /**
   * The grouping is a partition: every language key has a non-empty list of
   * records of that language, and each record occurs in its language's list
   * exactly as often as among all records and in no other list.
   */
  lemma GroupedIsPartition(cs: seq<Category>)
    ensures forall l :: l in Grouped(cs) ==> Grouped(cs)[l] != []
    ensures forall l, c ::
      multiset(Lookup(Grouped(cs), l))[c] == if c.lang == l then multiset(cs)[c] else 0
  {
    forall l, c ensures multiset(Lookup(Grouped(cs), l))[c] ==
      if c.lang == l then multiset(cs)[c] else 0
    {
      ForLangCounts(cs, l, c);
    }
  }

  /** Swaps two entries of a list being sorted. */
  method Swap(a: array<Category>, i: int, j: int)
    requires 0 <= i < a.Length && 0 <= j < a.Length
    modifies a
    ensures a[i] == old(a[j]) && a[j] == old(a[i])
    ensures forall k :: 0 <= k < a.Length && k != i && k != j ==> a[k] == old(a[k])
    ensures multiset(a[..]) == old(multiset(a[..]))
  {
    a[i], a[j] := a[j], a[i];
  }

  /**
   * sort.Slice by Order, in place. The source's sort is not stable, so only
   * order and permutation are promised.
   */
  method SortByOrder(a: array<Category>)
    modifies a
    ensures SortedByOrder(a[..])
    ensures multiset(a[..]) == old(multiset(a[..]))
  {
    var i := 0;
    while i < a.Length
      invariant 0 <= i <= a.Length
      invariant forall p, q :: 0 <= p < q < i ==> a[p].order <= a[q].order
      invariant multiset(a[..]) == old(multiset(a[..]))
    {
      var j := i;
      while j > 0 && a[j - 1].order > a[j].order
        invariant 0 <= j <= i
        invariant forall p, q :: 0 <= p < q <= i && p != j && q != j ==> a[p].order <= a[q].order
        invariant forall q :: j < q <= i ==> a[j].order < a[q].order
        invariant multiset(a[..]) == old(multiset(a[..]))
      {
        Swap(a, j - 1, j);
        j := j - 1;
      }
      i := i + 1;
    }
  }

  /**
   * The second loop of initData: every language's list sorted in place by
   * Order. Map iteration order is unspecified, so the next key is chosen
   * arbitrarily.
   */
  method SortEach(m: Categories) returns (reg: Categories)
    ensures reg.Keys == m.Keys
    ensures forall l :: l in reg ==>
      SortedByOrder(reg[l]) && multiset(reg[l]) == multiset(m[l])
  {
    reg := m;
    var pending := m.Keys;
    while pending != {}
      invariant pending <= m.Keys
      invariant reg.Keys == m.Keys
      invariant forall l :: l in reg ==> multiset(reg[l]) == multiset(m[l])
      invariant forall l :: l in reg && l !in pending ==> SortedByOrder(reg[l])
      decreases pending
    {
      var l :| l in pending;
      var s := reg[l];
      var items := new Category[|s|](k requires 0 <= k < |s| => s[k]);
      assert items[..] == s;
      SortByOrder(items);
      reg := reg[l := items[..]];
      pending := pending - {l};
    }
  }

  /**
   * In a registry of the decoded files every list holds only its own
   * language, and every file's record is in the list of the language its
   * path names.
   */
  lemma RegistryPlacesEveryFile(files: seq<DescriptorFile>, reg: Categories)
    requires Discovered(files) && Decoded(files).Success?
    requires IsRegistryOf(reg, Decoded(files).value)
    ensures forall l, k :: l in reg && 0 <= k < |reg[l]| ==> reg[l][k].lang == l
    ensures forall i :: 0 <= i < |files| ==>
      LangOf(files[i].path) in reg && Stamp(files[i]) in reg[LangOf(files[i].path)]
  {
    var recs := Decoded(files).value;
    GroupedIsPartition(recs);
    forall l, k | l in reg && 0 <= k < |reg[l]|
      ensures reg[l][k].lang == l
    {
      var c := reg[l][k];
      assert c in multiset(reg[l]);
      assert c in multiset(Lookup(Grouped(recs), l));
    }
    forall j | 0 <= j < |files|
      ensures LangOf(files[j].path) in reg && Stamp(files[j]) in reg[LangOf(files[j].path)]
    {
      var c := recs[j];
      assert c in multiset(recs);
      assert c in multiset(Lookup(Grouped(recs), c.lang));
      assert c in multiset(reg[c.lang]);
    }
  }

  /**
   * A failing file after a run of good ones decides the whole load: the
   * result is that file's error, whatever follows it.
   */
  lemma FirstFailureAborts(files: seq<DescriptorFile>, i: nat)
    requires Discovered(files) && i < |files|
    requires Decoded(files[..i]).Success? && !files[i].content.Parsed?
    ensures Decoded(files) == Failure(ErrorOf(files[i].content))
  {
  }

  /**
   * The first loop of initData: decode every discovered descriptor, stamp
   * its language from the path and append it to that language's list. The
   * first unreadable or malformed file aborts.
   */
  method Collect(files: seq<DescriptorFile>) returns (r: Result<Categories, LoadError>)
    requires Discovered(files)
    ensures r.Failure? <==> Decoded(files).Failure?
    ensures r.Failure? ==> r.error == Decoded(files).error
    ensures r.Success? ==> r.value == Grouped(Decoded(files).value)
  {
    var m: Categories := map[];
    ghost var recs: seq<Category> := [];
    var i := 0;
    while i < |files|
      invariant 0 <= i <= |files|
      invariant Decoded(files[..i]) == Success(recs)
      invariant m == Grouped(recs)
    {
      var file := files[i];
      match file.content
      case Unreadable =>
        FirstFailureAborts(files, i);
        return Failure(ReadFailed);
      case Malformed =>
        FirstFailureAborts(files, i);
        return Failure(DecodeFailed);
      case Parsed(record) =>
        var category := record.(lang := LangOf(file.path));
        var lang := category.lang;
        GroupedSnoc(recs, category);
        m := m[lang := Lookup(m, lang) + [category]];
        assert files[..i + 1][..i] == files[..i];
        recs := recs + [category];
        i := i + 1;
    }
    assert files[..i] == files;
    r := Success(m);
  }

  /**
   * initData: collect the descriptors by language, then sort every list by
   * Order. On success every list is sorted, holds exactly the records of its
   * language, and nothing else; the first failing file aborts with no
   * registry at all.
   */
  method Load(files: seq<DescriptorFile>) returns (r: Result<Categories, LoadError>)
    requires Discovered(files)
    ensures r.Failure? <==> Decoded(files).Failure?
    ensures r.Failure? ==> r.error == Decoded(files).error
    ensures r.Success? ==> IsRegistryOf(r.value, Decoded(files).value)
    ensures r.Success? ==> forall l, k :: l in r.value && 0 <= k < |r.value[l]| ==> r.value[l][k].lang == l
  {
    var collected := Collect(files);
    if collected.Failure? {
      return Failure(collected.error);
    }
    var reg := SortEach(collected.value);
    RegistryPlacesEveryFile(files, reg);
    r := Success(reg);
  }

  /**
   * A descriptor at data/en/reds/info.json loads as the only category of
   * "en", with every decoded field kept and Lang taken from the directory,
   * whatever Lang the JSON itself carried.
   */
  lemma SingleDescriptorRegistry(record: Category, reg: Categories)
    requires IsRegistryOf(reg, Decoded([DescriptorFile(["data", "en", "reds", "info.json"], Parsed(record))]).value)
    ensures reg == map["en" := [record.(lang := "en")]]
  {
    var file := DescriptorFile(["data", "en", "reds", "info.json"], Parsed(record));
    var c := record.(lang := "en");
    assert Decoded([file]).value == [c];
    assert LangsOf([c]) == {"en"};
    assert ForLang([c], "en") == [c] by {
      assert [c][..0] == [];
    }
    var s := reg["en"];
    assert multiset(s) == multiset{c};
    assert |s| == 1 by {
      assert |multiset(s)| == |s|;
    }
    assert s[0] in multiset(s);
    assert s == [c];
  }
}
