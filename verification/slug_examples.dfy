/** Worked examples of `slugify`. Each is computed a few characters at a time
    and the pieces are joined with `ScanJoin`. */
module SlugExamples {
  import opened Slug

  lemma ScanBushy()
    ensures Scan("Bushy", false) == "bushy"
  {
    ScanCons('y', [], false);
    ScanCons('h', "y", false);
    ScanCons('s', "hy", false);
    ScanCons('u', "shy", false);
    ScanCons('B', "ushy", false);
    assert "Bushy" == ['B'] + "ushy";
  }

  lemma ScanSpacePark()
    ensures Scan(" Park", false) == "-park"
  {
    ScanCons('k', [], false);
    ScanCons('r', "k", false);
    ScanCons('a', "rk", false);
    ScanCons('P', "ark", true);
    ScanCons(' ', "Park", false);
    assert " Park" == [' '] + "Park";
  }

  lemma ScanSpacedHyphen()
    ensures Scan("a - b", false) == "a---b"
  {
  }

  /** Joins the scans of two pieces, where the first ends as `mid` says. */
  lemma ScanJoin(a: string, b: string, inRun: bool, mid: bool, ra: string, rb: string)
    requires Scan(a, inRun) == ra && RunAfter(a, inRun) == mid && Scan(b, mid) == rb
    ensures Scan(a + b, inRun) == ra + rb
  {
    ScanAppend(a, b, inRun);
  }

  /** The usual case: words lower-cased, the space turned into '-'. */
  lemma BushyPark()
    ensures Slugify("Bushy Park") == "bushy-park"
  {
    var first, second := "Bushy", " Park";
    assert first + second == "Bushy Park";
    SlugifyIsScan(first + second);
    ScanBushy();
    ScanSpacePark();
    ScanJoin(first, second, false, false, "bushy", "-park");
    assert "bushy" + "-park" == "bushy-park";
  }

  lemma ScanSt()
    ensures Scan("St.", false) == "st"
  {
    ScanCons('.', [], false);
    ScanCons('t', ".", false);
    ScanCons('S', "t.", false);
    assert "St." == ['S'] + "t.";
  }

  lemma ScanSpaceJame()
    ensures Scan(" Jame", false) == "-jame"
  {
    ScanCons('e', [], false);
    ScanCons('m', "e", false);
    ScanCons('a', "me", false);
    ScanCons('J', "ame", true);
    ScanCons(' ', "Jame", false);
    assert " Jame" == [' '] + "Jame";
  }

  lemma ScanSQuoteS()
    ensures Scan("s's", false) == "ss"
  {
    ScanCons('s', [], false);
    ScanCons('\'', "s", false);
    ScanCons('s', "'s", false);
    assert "s's" == ['s'] + "'s";
  }

  lemma ScanBang()
    ensures Scan("!", false) == ""
  {
    ScanCons('!', [], false);
    assert "!" == ['!'] + [];
  }

  lemma ScanStJame()
    ensures Scan("St. Jame", false) == "st-jame"
  {
    ScanSt();
    ScanSpaceJame();
    ScanJoin("St.", " Jame", false, false, "st", "-jame");
    assert "St." + " Jame" == "St. Jame";
  }

  lemma ScanStJames()
    ensures Scan("St. James's", false) == "st-jamess"
    ensures RunAfter("St. James's", false) == false
  {
    ScanStJame();
    ScanSQuoteS();
    ScanJoin("St. Jame", "s's", false, false, "st-jame", "ss");
    assert "St. Jame" + "s's" == "St. James's";
  }

  lemma ScanSpaceParkBang()
    ensures Scan(" Park!", false) == "-park"
  {
    ScanSpacePark();
    ScanBang();
    ScanJoin(" Park", "!", false, false, "-park", "");
    assert " Park" + "!" == " Park!";
  }

  /** Punctuation is dropped, and so is the apostrophe inside a word. */
  lemma StJamessPark()
    ensures Slugify("St. James's Park!") == "st-jamess-park"
  {
    var first, second := "St. James's", " Park!";
    assert first + second == "St. James's Park!";
    SlugifyIsScan(first + second);
    ScanStJames();
    ScanSpaceParkBang();
    ScanJoin(first, second, false, false, "st-jamess", "-park");
    assert "st-jamess" + "-park" == "st-jamess-park";
  }

  /** Hyphens are neither collapsed nor trimmed. */
  lemma SpacedHyphen()
    ensures Slugify("a - b") == "a---b"
  {
    SlugifyIsScan("a - b");
    ScanSpacedHyphen();
  }
}
