/**
 * The two cache key generators. Each builds its key by successive appends, and is proved to
 * produce the rendering of a list of segments (tag=value;) or of fields (value;), about which
 * the key properties are stated.
 */
module KeyGenerators {
  import opened Errors
  import opened Text

  /** One "tag=value;" part of the film filter key. */
  datatype Segment = Segment(tag: string, value: string)

  /** The text of one segment: its tag, '=', its value and ';'. */
  function Seg(tag: string, value: string): string
  {
    tag + "=" + value + ";"
  }

  function Render(segs: seq<Segment>): string
  {
    if segs == [] then "" else Seg(segs[0].tag, segs[0].value) + Render(segs[1..])
  }

  lemma {:induction false} RenderAppend(a: seq<Segment>, b: seq<Segment>)
    ensures Render(a + b) == Render(a) + Render(b)
  {
    if a != [] {
      assert (a + b)[1..] == a[1..] + b;
      RenderAppend(a[1..], b);
      var h := Seg(a[0].tag, a[0].value);
      assert Render(a + b) == h + (Render(a[1..]) + Render(b));
      assert h + (Render(a[1..]) + Render(b)) == (h + Render(a[1..])) + Render(b);
    } else {
      assert a + b == b;
    }
  }

  lemma RenderOne(s: Segment)
    ensures Render([s]) == Seg(s.tag, s.value)
  {
    assert [s][1..] == [];
    assert Seg(s.tag, s.value) + "" == Seg(s.tag, s.value);
  }

  function Tags(segs: seq<Segment>): seq<string>
  {
    if segs == [] then [] else [segs[0].tag] + Tags(segs[1..])
  }

  lemma {:induction false} TagsAppend(a: seq<Segment>, b: seq<Segment>)
    ensures Tags(a + b) == Tags(a) + Tags(b)
  {
    if a != [] {
      assert (a + b)[1..] == a[1..] + b;
      TagsAppend(a[1..], b);
    } else {
      assert a + b == b;
    }
  }

  /** The segment of an optional argument: none when it is absent. */
  function When(present: bool, s: Segment): (r: seq<Segment>)
    ensures |r| <= 1 && (present <==> r == [s])
  {
    if present then [s] else []
  }

  /** The text one optional argument adds to a key: its segment when present, nothing otherwise. */
  function Part(present: bool, tag: string, value: string): string
  {
    if present then Seg(tag, value) else ""
  }

  /** An optional segment renders to its part of the key. */
  lemma WhenRender(present: bool, s: Segment)
    ensures Render(When(present, s)) == Part(present, s.tag, s.value)
  {
    if present {
      RenderOne(s);
    }
  }

  /** The tags of an optional segment: its tag when present, none otherwise. */
  lemma WhenTags(present: bool, s: Segment)
    ensures Tags(When(present, s)) == if present then [s.tag] else []
  {
    if present {
      assert [s][1..] == [];
    }
  }

  /** Six runs of segments render to the six texts in turn. */
  lemma RenderSix(s1: seq<Segment>, s2: seq<Segment>, s3: seq<Segment>, s4: seq<Segment>,
                  s5: seq<Segment>, s6: seq<Segment>)
    ensures Render(s1 + s2 + s3 + s4 + s5 + s6)
      == Render(s1) + Render(s2) + Render(s3) + Render(s4) + Render(s5) + Render(s6)
  {
    RenderAppend(s1, s2);
    RenderAppend(s1 + s2, s3);
    RenderAppend(s1 + s2 + s3, s4);
    RenderAppend(s1 + s2 + s3 + s4, s5);
    RenderAppend(s1 + s2 + s3 + s4 + s5, s6);
  }

  /** Six runs of segments carry the six runs of tags in turn. */
  lemma TagsSix(s1: seq<Segment>, s2: seq<Segment>, s3: seq<Segment>, s4: seq<Segment>,
                s5: seq<Segment>, s6: seq<Segment>)
    ensures Tags(s1 + s2 + s3 + s4 + s5 + s6)
      == Tags(s1) + Tags(s2) + Tags(s3) + Tags(s4) + Tags(s5) + Tags(s6)
  {
    TagsAppend(s1, s2);
    TagsAppend(s1 + s2, s3);
    TagsAppend(s1 + s2 + s3, s4);
    TagsAppend(s1 + s2 + s3 + s4, s5);
    TagsAppend(s1 + s2 + s3 + s4 + s5, s6);
  }

  /** The value of the name argument, as appended. */
  function NameText(name: Option<string>): string
  {
    if name.Some? then name.value else ""
  }

  /** A list argument sorted and joined with ','. */
  function Sorted(xs: Option<seq<string>>): string
  {
    if xs.Some? then Join(Sort(xs.value), ",") else ""
  }

  /** The rating threshold in BigDecimal's plain form. */
  function RatingText(rating: Option<Decimal>): string
  {
    if rating.Some? then DecimalText(rating.value) else ""
  }

  /** A year in Integer's decimal form. */
  function YearText(year: Option<int>): string
  {
    if year.Some? then IntText(year.value) else ""
  }

  /** The segments every filter key starts with: the page number and the page size. */
  function PageSegments(number: nat, size: nat): (r: seq<Segment>)
    ensures Render(r) == Seg("page", IntText(number)) + Seg("size", IntText(size))
  {
    var r := [Segment("page", IntText(number)), Segment("size", IntText(size))];
    assert r[1..] == [Segment("size", IntText(size))];
    RenderOne(Segment("size", IntText(size)));
    r
  }

  /**
   * The segments of a film filter key in their fixed order: page and size always, then name,
   * genre, rating, fromYear, toYear and mpa when given, the lists sorted and joined with ','.
   */
  function FilterSegments(number: nat, size: nat, name: Option<string>, genre: Option<seq<string>>,
                          rating: Option<Decimal>, fromYear: Option<int>, toYear: Option<int>,
                          mpa: Option<seq<string>>): seq<Segment>
  {
    PageSegments(number, size) + OptionSegments(name, genre, rating, fromYear, toYear, mpa)
  }

  /** The segments of the optional arguments that are given, in their fixed order. */
  function OptionSegments(name: Option<string>, genre: Option<seq<string>>, rating: Option<Decimal>,
                          fromYear: Option<int>, toYear: Option<int>, mpa: Option<seq<string>>): seq<Segment>
  {
    When(name.Some?, Segment("name", NameText(name)))
    + When(Listed(genre), Segment("genre", Sorted(genre)))
    + When(rating.Some?, Segment("rating", RatingText(rating)))
    + When(fromYear.Some?, Segment("fromYear", YearText(fromYear)))
    + When(toYear.Some?, Segment("toYear", YearText(toYear)))
    + When(Listed(mpa), Segment("mpa", Sorted(mpa)))
  }

  /** The text of the optional segments is their parts, one after the other. */
  lemma OptionSegmentsRender(name: Option<string>, genre: Option<seq<string>>, rating: Option<Decimal>,
                             fromYear: Option<int>, toYear: Option<int>, mpa: Option<seq<string>>)
    ensures Render(OptionSegments(name, genre, rating, fromYear, toYear, mpa))
      == Part(name.Some?, "name", NameText(name)) + Part(Listed(genre), "genre", Sorted(genre))
         + Part(rating.Some?, "rating", RatingText(rating)) + Part(fromYear.Some?, "fromYear", YearText(fromYear))
         + Part(toYear.Some?, "toYear", YearText(toYear)) + Part(Listed(mpa), "mpa", Sorted(mpa))
  {
    RenderSix(When(name.Some?, Segment("name", NameText(name))),
              When(Listed(genre), Segment("genre", Sorted(genre))),
              When(rating.Some?, Segment("rating", RatingText(rating))),
              When(fromYear.Some?, Segment("fromYear", YearText(fromYear))),
              When(toYear.Some?, Segment("toYear", YearText(toYear))),
              When(Listed(mpa), Segment("mpa", Sorted(mpa))));
    WhenRender(name.Some?, Segment("name", NameText(name)));
    WhenRender(Listed(genre), Segment("genre", Sorted(genre)));
    WhenRender(rating.Some?, Segment("rating", RatingText(rating)));
    WhenRender(fromYear.Some?, Segment("fromYear", YearText(fromYear)));
    WhenRender(toYear.Some?, Segment("toYear", YearText(toYear)));
    WhenRender(Listed(mpa), Segment("mpa", Sorted(mpa)));
  }

  /** FilmsFilterKeyGenerator.generate, appending segment after segment to the key. */
  method FilmsFilterKey(number: nat, size: nat, name: Option<string>, genre: Option<seq<string>>,
                        rating: Option<Decimal>, fromYear: Option<int>, toYear: Option<int>,
                        mpa: Option<seq<string>>) returns (key: string)
    ensures key == Render(FilterSegments(number, size, name, genre, rating, fromYear, toYear, mpa))
  {
    var page := Seg("page", IntText(number)) + Seg("size", IntText(size));
    key := page;
    var options := "";
    options := AppendWhen(options, name.Some?, "name", NameText(name));
    assert options == Part(name.Some?, "name", NameText(name));
    options := AppendWhen(options, Listed(genre), "genre", Sorted(genre));
    options := AppendWhen(options, rating.Some?, "rating", RatingText(rating));
    options := AppendWhen(options, fromYear.Some?, "fromYear", YearText(fromYear));
    options := AppendWhen(options, toYear.Some?, "toYear", YearText(toYear));
    options := AppendWhen(options, Listed(mpa), "mpa", Sorted(mpa));
    key := key + options;
    FilterKeyText(number, size, name, genre, rating, fromYear, toYear, mpa);
  }

  /** A filter key is the page prefix followed by the parts of the optional arguments. */
  lemma FilterKeyText(number: nat, size: nat, name: Option<string>, genre: Option<seq<string>>,
                      rating: Option<Decimal>, fromYear: Option<int>, toYear: Option<int>,
                      mpa: Option<seq<string>>)
    ensures Render(FilterSegments(number, size, name, genre, rating, fromYear, toYear, mpa))
      == Seg("page", IntText(number)) + Seg("size", IntText(size))
         + (Part(name.Some?, "name", NameText(name)) + Part(Listed(genre), "genre", Sorted(genre))
         + Part(rating.Some?, "rating", RatingText(rating)) + Part(fromYear.Some?, "fromYear", YearText(fromYear))
         + Part(toYear.Some?, "toYear", YearText(toYear)) + Part(Listed(mpa), "mpa", Sorted(mpa)))
  {
    OptionSegmentsRender(name, genre, rating, fromYear, toYear, mpa);
    RenderAppend(PageSegments(number, size), OptionSegments(name, genre, rating, fromYear, toYear, mpa));
  }

  /** One `if (...) key.append(tag).append('=').append(value).append(';')` step. */
  method AppendWhen(key: string, present: bool, tag: string, value: string) returns (key': string)
    ensures key' == key + Part(present, tag, value)
  {
    if present {
      key' := key + Seg(tag, value);
    } else {
      key' := key;
      assert key + "" == key;
    }
  }

  /** Every filter key starts with "page=<number>;size=<size>;". */
  lemma FilterKeyPrefix(number: nat, size: nat, name: Option<string>, genre: Option<seq<string>>,
                        rating: Option<Decimal>, fromYear: Option<int>, toYear: Option<int>,
                        mpa: Option<seq<string>>)
    ensures var prefix := Seg("page", IntText(number)) + Seg("size", IntText(size));
      var key := Render(FilterSegments(number, size, name, genre, rating, fromYear, toYear, mpa));
      |prefix| <= |key| && key[..|prefix|] == prefix
  {
    var head := PageSegments(number, size);
    var tail := OptionSegments(name, genre, rating, fromYear, toYear, mpa);
    RenderAppend(head, tail);
    var prefix := Render(head);
    assert (prefix + Render(tail))[..|prefix|] == prefix;
  }

  /** With no optional argument the key is exactly the page and size prefix. */
  lemma FilterKeyWithoutOptions(number: nat, size: nat, genre: Option<seq<string>>, mpa: Option<seq<string>>)
    requires !Listed(genre) && !Listed(mpa)
    ensures Render(FilterSegments(number, size, None, genre, None, None, None, mpa))
      == Seg("page", IntText(number)) + Seg("size", IntText(size))
  {
    var head := PageSegments(number, size);
    assert OptionSegments(None, genre, None, None, None, mpa) == [];
    assert FilterSegments(number, size, None, genre, None, None, None, mpa) == head;
  }

  /**
   * The tags of a filter key in order: page and size, then each optional tag exactly when its
   * argument is given (a list: given and not empty), always in the order name, genre, rating,
   * fromYear, toYear, mpa.
   */
  lemma FilterSegmentTags(number: nat, size: nat, name: Option<string>, genre: Option<seq<string>>,
                          rating: Option<Decimal>, fromYear: Option<int>, toYear: Option<int>,
                          mpa: Option<seq<string>>)
    ensures Tags(FilterSegments(number, size, name, genre, rating, fromYear, toYear, mpa))
      == ["page", "size"]
         + ((if name.Some? then ["name"] else []) + (if Listed(genre) then ["genre"] else [])
         + (if rating.Some? then ["rating"] else []) + (if fromYear.Some? then ["fromYear"] else [])
         + (if toYear.Some? then ["toYear"] else []) + (if Listed(mpa) then ["mpa"] else []))
  {
    var s0 := PageSegments(number, size);
    assert Tags(s0) == ["page", "size"] by {
      assert s0 == [Segment("page", IntText(number)), Segment("size", IntText(size))];
      assert s0[1..][1..] == [];
      assert Tags(s0[1..]) == ["size"] + [];
      assert Tags(s0) == ["page"] + ["size"];
    }
    TagsAppend(s0, OptionSegments(name, genre, rating, fromYear, toYear, mpa));
    OptionSegmentTags(name, genre, rating, fromYear, toYear, mpa);
  }

  lemma OptionSegmentTags(name: Option<string>, genre: Option<seq<string>>, rating: Option<Decimal>,
                          fromYear: Option<int>, toYear: Option<int>, mpa: Option<seq<string>>)
    ensures Tags(OptionSegments(name, genre, rating, fromYear, toYear, mpa))
      == (if name.Some? then ["name"] else []) + (if Listed(genre) then ["genre"] else [])
         + (if rating.Some? then ["rating"] else []) + (if fromYear.Some? then ["fromYear"] else [])
         + (if toYear.Some? then ["toYear"] else []) + (if Listed(mpa) then ["mpa"] else [])
  {
    TagsSix(When(name.Some?, Segment("name", NameText(name))),
            When(Listed(genre), Segment("genre", Sorted(genre))),
            When(rating.Some?, Segment("rating", RatingText(rating))),
            When(fromYear.Some?, Segment("fromYear", YearText(fromYear))),
            When(toYear.Some?, Segment("toYear", YearText(toYear))),
            When(Listed(mpa), Segment("mpa", Sorted(mpa))));
    WhenTags(name.Some?, Segment("name", NameText(name)));
    WhenTags(Listed(genre), Segment("genre", Sorted(genre)));
    WhenTags(rating.Some?, Segment("rating", RatingText(rating)));
    WhenTags(fromYear.Some?, Segment("fromYear", YearText(fromYear)));
    WhenTags(toYear.Some?, Segment("toYear", YearText(toYear)));
    WhenTags(Listed(mpa), Segment("mpa", Sorted(mpa)));
  }

  /** The key does not depend on the order of the genre and mpa lists. */
  lemma FilterKeyIgnoresListOrder(number: nat, size: nat, name: Option<string>,
                                  genre: seq<string>, genre': seq<string>, rating: Option<Decimal>,
                                  fromYear: Option<int>, toYear: Option<int>, mpa: seq<string>, mpa': seq<string>)
    requires multiset(genre) == multiset(genre') && multiset(mpa) == multiset(mpa')
    ensures FilterSegments(number, size, name, Some(genre), rating, fromYear, toYear, Some(mpa))
         == FilterSegments(number, size, name, Some(genre'), rating, fromYear, toYear, Some(mpa'))
  {
    SortIgnoresOrder(genre, genre');
    SortIgnoresOrder(mpa, mpa');
    assert Listed(Some(genre)) == Listed(Some(genre')) by {
      assert |genre| == |multiset(genre)| == |multiset(genre')| == |genre'|;
    }
    assert Listed(Some(mpa)) == Listed(Some(mpa')) by {
      assert |mpa| == |multiset(mpa)| == |multiset(mpa')| == |mpa'|;
    }
    assert Sorted(Some(genre)) == Sorted(Some(genre'));
    assert Sorted(Some(mpa)) == Sorted(Some(mpa'));
    assert OptionSegments(name, Some(genre), rating, fromYear, toYear, Some(mpa))
        == OptionSegments(name, Some(genre'), rating, fromYear, toYear, Some(mpa'));
  }

  /** One field of a users page key followed by its ';'. */
  function Field(f: string): string
  {
    f + ";"
  }

  /** The fields, each followed by ';'. */
  function Terminated(fields: seq<string>): (s: string)
    ensures fields != [] ==> |s| > 0 && s[|s| - 1] == ';'
  {
    if fields == [] then "" else Field(fields[0]) + Terminated(fields[1..])
  }

  /** The fields of a users page key: the user id, the method name, the page number and size. */
  function UsersPageFields(id: int, methodName: string, number: nat, size: nat): seq<string>
  {
    [IntText(id), methodName, IntText(number), IntText(size)]
  }

  /** UsersPageKeyGenerator.generate: four appends of a field and its ';'. */
  method UsersPageKey(id: int, methodName: string, number: nat, size: nat) returns (key: string)
    ensures key == Terminated(UsersPageFields(id, methodName, number, size))
  {
    key := Field(IntText(id));
    key := key + Field(methodName);
    key := key + Field(IntText(number));
    key := key + Field(IntText(size));
    var fs := UsersPageFields(id, methodName, number, size);
    assert fs[1..][1..][1..][1..] == [];
    assert Terminated(fs[1..][1..][1..]) == Field(IntText(size));
    assert Terminated(fs[1..][1..]) == Field(IntText(number)) + Field(IntText(size));
    assert Terminated(fs[1..]) == Field(methodName) + (Field(IntText(number)) + Field(IntText(size)));
  }

  /** The index of the first ';' in s, or |s| if there is none. */
  function FirstSemicolon(s: string): (i: nat)
    ensures i <= |s| && (i < |s| ==> s[i] == ';') && ';' !in s[..i]
  {
    if s == [] then 0
    else if s[0] == ';' then 0
    else
      var i := FirstSemicolon(s[1..]);
      assert s[..i + 1] == [s[0]] + s[1..][..i];
      i + 1
  }

  /** The fields of a key: the text before each ';', and any unterminated rest. */
  function Split(s: string): seq<string>
    decreases |s|
  {
    if s == [] then []
    else
      var i := FirstSemicolon(s);
      if i == |s| then [s] else [s[..i]] + Split(s[i + 1..])
  }

  lemma {:induction false} FirstSemicolonAfter(a: string, b: string)
    requires ';' !in a
    ensures FirstSemicolon(Field(a) + b) == |a|
  {
    if a != [] {
      assert (Field(a) + b)[1..] == Field(a[1..]) + b;
      FirstSemicolonAfter(a[1..], b);
    } else {
      assert (Field(a) + b)[0] == ';';
    }
  }

  /** Splitting a key at its ';' gives back its fields when no field holds a ';'. */
  lemma {:induction false} SplitTerminated(fields: seq<string>)
    requires forall f :: f in fields ==> ';' !in f
    ensures Split(Terminated(fields)) == fields
  {
    if fields != [] {
      var f := fields[0];
      var rest := Terminated(fields[1..]);
      var s := Field(f) + rest;
      assert s == Terminated(fields);
      FirstSemicolonAfter(f, rest);
      assert s[..|f|] == f;
      assert s[|f| + 1..] == rest;
      SplitTerminated(fields[1..]);
      assert Split(s) == [f] + Split(rest);
      assert fields == [f] + fields[1..];
    }
  }

  lemma IntTextHasNoSemicolon(n: int)
    ensures ';' !in IntText(n)
  {
  }

  /** A users page key ends with ';' and splits into exactly its four fields. */
  lemma UsersPageKeyFields(id: int, methodName: string, number: nat, size: nat)
    requires ';' !in methodName
    ensures var key := Terminated(UsersPageFields(id, methodName, number, size));
      key[|key| - 1] == ';' && Split(key) == UsersPageFields(id, methodName, number, size)
  {
    IntTextHasNoSemicolon(id);
    IntTextHasNoSemicolon(number);
    IntTextHasNoSemicolon(size);
    SplitTerminated(UsersPageFields(id, methodName, number, size));
  }

  /**
   * Two users page keys are equal only for the same user, method, page number and page size:
   * pages of one list never share a cache entry, nor do the followers and following lists.
   */
  lemma UsersPageKeyInjective(id: int, methodName: string, number: nat, size: nat,
                              id': int, methodName': string, number': nat, size': nat)
    requires ';' !in methodName && ';' !in methodName'
    requires Terminated(UsersPageFields(id, methodName, number, size))
          == Terminated(UsersPageFields(id', methodName', number', size'))
    ensures id == id' && methodName == methodName' && number == number' && size == size'
  {
    UsersPageKeyFields(id, methodName, number, size);
    UsersPageKeyFields(id', methodName', number', size');
    var fs, fs' := UsersPageFields(id, methodName, number, size), UsersPageFields(id', methodName', number', size');
    assert fs == fs';
    IntTextInjective(id, id');
    IntTextInjective(number, number');
    IntTextInjective(size, size');
  }
}
