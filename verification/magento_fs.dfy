/** The decisions of magentoFS.ts that do not touch the disk: which directory
    is a Magento root, which modules `app/etc/config.php` enables, where a
    theme is deployed under pub/static, which directory names are locales and
    themes, and how a component ID "area/vendor/name" becomes a theme. */
module MagentoFs {
  import opened Wrappers
  import opened Strings
  import Paths
  import opened Arrays
  import Flatten
  import opened Records
  import opened Themes

  // ---------------------------------------------------------------- root

  /** The entries findMagentoRoot looks for. */
  const EXPECTED_ENTRIES := ["app", "vendor", "pub"]

  /** The predicate findMagentoRoot hands to findUp. */
  predicate IsMagentoRoot(entries: seq<string>)
  {
    forall e :: e in EXPECTED_ENTRIES ==> e in entries
  }

  /** Only membership counts: the order of the entries and any extra entries
      do not matter, and a directory lacking one of the three is no root. */
  lemma MagentoRootByMembership(entries: seq<string>, more: seq<string>)
    ensures IsMagentoRoot(entries) <==> "app" in entries && "vendor" in entries && "pub" in entries
    ensures IsMagentoRoot(entries) && (forall e :: e in entries ==> e in more) ==> IsMagentoRoot(more)
  {
  }

  // ------------------------------------------------------ enabled modules

  /** `join(magentoRoot, 'app/etc/config.php')` */
  function ConfigPath(magentoRoot: string): string
  {
    Paths.Join(magentoRoot, "app/etc/config.php")
  }

  function ReadFailure(configPath: string): string
  {
    "Failed to read list of enabled modules from " + configPath
  }

  /** JavaScript's `\w`. */
  predicate IsWordChar(c: char)
  {
    'a' <= c <= 'z' || 'A' <= c <= 'Z' || '0' <= c <= '9' || c == '_'
  }

  /** Where a greedy `\s*` tried at `i` stops. */
  function SkipWs(s: string, i: nat): (j: nat)
    requires i <= |s|
    ensures i <= j <= |s|
    ensures forall k :: i <= k < j ==> IsJsWhitespace(s[k])
    ensures j < |s| ==> !IsJsWhitespace(s[j])
    decreases |s| - i
  {
    if i < |s| && IsJsWhitespace(s[i]) then SkipWs(s, i + 1) else i
  }

  /** Where `\s*=>\s*` tried at `i` ends, if it matches there. As `=` is not
      white space, the greedy `\s*` never has to give anything back. */
  function ArrowEnd(s: string, i: nat): (r: Option<nat>)
    requires i <= |s|
    ensures r.Some? ==> i + 2 <= r.value <= |s|
  {
    var k := SkipWs(s, i);
    if k + 2 <= |s| && s[k] == '=' && s[k + 1] == '>' then Some(SkipWs(s, k + 2)) else None
  }

  const MODULES_KEY := "'modules'"

  /** Where `'modules'\s*=>\s*\[` tried at `i` ends (just past the bracket),
      if it matches there. */
  function HeadEnd(s: string, i: nat): (r: Option<nat>)
    requires i <= |s|
    ensures r.Some? ==> i < r.value <= |s| && s[r.value - 1] == '['
  {
    if !OccursAt(s, MODULES_KEY, i) then None
    else
      match ArrowEnd(s, i + |MODULES_KEY|)
      case None => None
      case Some(m) => if m < |s| && s[m] == '[' then Some(m + 1) else None
  }

  /** The leftmost place at or after `i` where the head matches. */
  function FirstHead(s: string, i: nat): (r: Option<nat>)
    requires i <= |s|
    ensures r.None? ==> forall k :: i <= k <= |s| ==> HeadEnd(s, k).None?
    ensures r.Some? ==> i <= r.value <= |s| && HeadEnd(s, r.value).Some?
    ensures r.Some? ==> forall j :: i <= j < r.value ==> HeadEnd(s, j).None?
    decreases |s| - i
  {
    if HeadEnd(s, i).Some? then Some(i)
    else if i == |s| then None
    else FirstHead(s, i + 1)
  }

  /** The capture of `/'modules'\s*=>\s*\[(.+)\]/s`, or "" when it does not
      match: from the end of the leftmost head to the last ']' of the text,
      at least one character. A later head cannot match where the leftmost
      fails, since its bracket comes later still. */
  function ArrayBody(s: string): (body: string)
    ensures body != "" ==> exists p, q :: 0 < p < q < |s| && s[p - 1] == '[' && s[q] == ']' && body == s[p..q]
                                         && ']' !in s[q + 1..]
  {
    match FirstHead(s, 0)
    case None => ""
    case Some(k) =>
      var p := HeadEnd(s, k).value;
      var q := Paths.LastIndexOf(s, ']');
      if q > p then
        assert s[p - 1] == '[' && s[q] == ']' && ']' !in s[q + 1..];
        s[p..q]
      else ""
  }

  /** `rawArrayBody.split(',').map(t => t.trim())` */
  function Items(body: string): (items: seq<string>)
    ensures |items| == |Split(body, ',')|
  {
    var parts := Split(body, ',');
    seq(|parts|, i requires 0 <= i < |parts| => Trim(parts[i]))
  }

  /** End of the run of word characters starting at `i`. */
  function WordEnd(s: string, i: nat): (j: nat)
    requires i <= |s|
    ensures i <= j <= |s|
    ensures forall k :: i <= k < j ==> IsWordChar(s[k])
    ensures j < |s| ==> !IsWordChar(s[j])
    decreases |s| - i
  {
    if i < |s| && IsWordChar(s[i]) then WordEnd(s, i + 1) else i
  }

  /** The two captures of the item pattern. */
  datatype ItemMatch = ItemMatch(name: string, digit: char)

  /** `'(\w+)'\s*=>\s*([01])` tried at `i`. As the quote is not a word
      character, the greedy `\w+` must take the whole run. */
  function ItemMatchAt(s: string, i: nat): (r: Option<ItemMatch>)
    requires i <= |s|
    ensures r.Some? ==>
      var n := r.value.name;
      && n != "" && (forall k :: 0 <= k < |n| ==> IsWordChar(n[k]))
      && i + |n| + 2 <= |s|
      && s[i] == '\'' && s[i + 1..i + 1 + |n|] == n && s[i + 1 + |n|] == '\''
      && (r.value.digit == '0' || r.value.digit == '1')
  {
    if i >= |s| || s[i] != '\'' then None
    else
      var e := WordEnd(s, i + 1);
      if e == i + 1 || e >= |s| || s[e] != '\'' then None
      else
        match ArrowEnd(s, e + 1)
        case None => None
        case Some(m) =>
          if m < |s| && (s[m] == '0' || s[m] == '1') then Some(ItemMatch(s[i + 1..e], s[m])) else None
  }

  /** Where `item.match(…)` finds the leftmost match at or after `i`. */
  function FirstItemMatch(s: string, i: nat): (r: Option<nat>)
    requires i <= |s|
    ensures r.None? ==> forall k :: i <= k <= |s| ==> ItemMatchAt(s, k).None?
    ensures r.Some? ==> i <= r.value <= |s| && ItemMatchAt(s, r.value).Some?
    ensures r.Some? ==> forall j :: i <= j < r.value ==> ItemMatchAt(s, j).None?
    decreases |s| - i
  {
    if ItemMatchAt(s, i).Some? then Some(i)
    else if i == |s| then None
    else FirstItemMatch(s, i + 1)
  }

  /** The module an item enables: its leftmost match, when the digit is 1
      (`Number('1')` is truthy, `Number('0')` is not). */
  function EnabledName(item: string): Option<string>
  {
    match FirstItemMatch(item, 0)
    case None => None
    case Some(k) =>
      var m := ItemMatchAt(item, k).value;
      if m.digit == '1' then Some(m.name) else None
  }

  /** The names the loop pushes, item by item. */
  function EnabledOf(items: seq<string>): seq<string>
  {
    if |items| == 0 then []
    else
      var last := items[|items| - 1];
      EnabledOf(items[..|items| - 1]) + (if EnabledName(last).Some? then [EnabledName(last).value] else [])
  }

  /** `getEnabledModules(magentoRoot)`, given what reading the config file
      yielded (None when the read failed). */
  method GetEnabledModules(magentoRoot: string, rawConfig: Option<string>) returns (r: Result<seq<string>>)
    ensures rawConfig.None? || rawConfig == Some("") <==> r.Err?
    ensures r.Err? ==> r.error == ReadFailure(ConfigPath(magentoRoot))
    ensures r.Ok? ==> r.value == EnabledOf(Items(ArrayBody(rawConfig.value)))
  {
    var configPath := ConfigPath(magentoRoot);
    if rawConfig.None? || rawConfig.value == "" {
      return Err(ReadFailure(configPath));
    }
    var items := Items(ArrayBody(rawConfig.value));
    var enabledModules := CollectEnabled(items);
    return Ok(enabledModules);
  }

  /** The loop of getEnabledModules over the trimmed items. */
  method CollectEnabled(items: seq<string>) returns (enabledModules: seq<string>)
    ensures enabledModules == EnabledOf(items)
  {
    enabledModules := [];
    var i := 0;
    while i < |items|
      invariant 0 <= i <= |items|
      invariant enabledModules == EnabledOf(items[..i])
    {
      var item := items[i];
      var k := FirstItemMatch(item, 0);
      var enabled: Option<string> := None;
      if k.Some? {
        var m := ItemMatchAt(item, k.value).value;
        if m.digit == '1' {
          enabled := Some(m.name);
        }
      }
      assert enabled == EnabledName(item);
      EnabledOfPrefixStep(items, i);
      if enabled.Some? {
        enabledModules := enabledModules + [enabled.value];
      }
      i := i + 1;
    }
    assert items[..i] == items;
  }

  /** One more item extends the modules found so far by what it enables. */
  lemma EnabledOfPrefixStep(items: seq<string>, i: nat)
    requires i < |items|
    ensures EnabledOf(items[..i + 1])
         == EnabledOf(items[..i]) + if EnabledName(items[i]).Some? then [EnabledName(items[i]).value] else []
  {
    assert items[..i + 1][..i] == items[..i];
  }

  /** A module is reported exactly when one of the items enables it. */
  lemma {:induction false} EnabledOfExactly(items: seq<string>, n: string)
    ensures n in EnabledOf(items) <==> exists i :: 0 <= i < |items| && EnabledName(items[i]) == Some(n)
  {
    if |items| > 0 {
      var init := items[..|items| - 1];
      EnabledOfExactly(init, n);
      if exists i :: 0 <= i < |items| && EnabledName(items[i]) == Some(n) {
        var i :| 0 <= i < |items| && EnabledName(items[i]) == Some(n);
        if i < |items| - 1 {
          assert init[i] == items[i];
        }
      }
      if n in EnabledOf(init) {
        var i :| 0 <= i < |init| && EnabledName(init[i]) == Some(n);
        assert items[i] == init[i];
      }
    }
  }

  /** Items are taken in order: the modules of two runs of items are those
      of the first run followed by those of the second. */
  lemma {:induction false} EnabledOfAppend(xs: seq<string>, ys: seq<string>)
    ensures EnabledOf(xs + ys) == EnabledOf(xs) + EnabledOf(ys)
    decreases |ys|
  {
    if |ys| == 0 {
      assert xs + ys == xs;
    } else {
      assert (xs + ys)[..|xs + ys| - 1] == xs + ys[..|ys| - 1];
      EnabledOfAppend(xs, ys[..|ys| - 1]);
    }
  }

  /** An enabled name is a non-empty run of word characters that appears in
      the item between quotes, followed by `=> 1`, and no earlier place of
      the item matches the pattern. */
  lemma EnabledNameShape(item: string, n: string)
    requires EnabledName(item) == Some(n)
    ensures n != "" && forall k :: 0 <= k < |n| ==> IsWordChar(n[k])
    ensures exists i :: 0 <= i <= |item| && ItemMatchAt(item, i) == Some(ItemMatch(n, '1'))
                        && OccursAt(item, "'" + n + "'", i)
                        && forall j :: 0 <= j < i ==> ItemMatchAt(item, j).None?
  {
    var i := FirstItemMatch(item, 0).value;
    assert ItemMatchAt(item, i).value.name == n;
    QuotedAt(item, i, n);
  }

  /** A name between two quotes in the text is an occurrence of the quoted
      name. */
  lemma QuotedAt(s: string, i: nat, n: string)
    requires i + |n| + 2 <= |s|
    requires s[i] == '\'' && s[i + 1..i + 1 + |n|] == n && s[i + 1 + |n|] == '\''
    ensures OccursAt(s, "'" + n + "'", i)
  {
    var q := "'" + n + "'";
    forall k | 0 <= k < |q| ensures s[i + k] == q[k] {
      if 0 < k <= |n| {
        assert s[i + k] == s[i + 1..i + 1 + |n|][k - 1];
      }
    }
    assert s[i..i + |q|] == q;
  }

  /** `\s*` over a run of white space stops right after it. */
  lemma {:induction false} SkipWsOver(s: string, i: nat, gap: string)
    requires i + |gap| <= |s| && s[i..i + |gap|] == gap
    requires forall k :: 0 <= k < |gap| ==> IsJsWhitespace(gap[k])
    requires i + |gap| == |s| || !IsJsWhitespace(s[i + |gap|])
    ensures SkipWs(s, i) == i + |gap|
    decreases |gap|
  {
    if |gap| > 0 {
      assert s[i] == gap[0];
      assert s[i + 1..i + 1 + |gap[1..]|] == gap[1..];
      SkipWsOver(s, i + 1, gap[1..]);
    }
  }

  /** The word run starting at `i` ends where the word does. */
  lemma {:induction false} WordEndOver(s: string, i: nat, w: string)
    requires i + |w| <= |s| && s[i..i + |w|] == w
    requires forall k :: 0 <= k < |w| ==> IsWordChar(w[k])
    requires i + |w| == |s| || !IsWordChar(s[i + |w|])
    ensures WordEnd(s, i) == i + |w|
    decreases |w|
  {
    if |w| > 0 {
      assert s[i] == w[0];
      assert s[i + 1..i + 1 + |w[1..]|] == w[1..];
      WordEndOver(s, i + 1, w[1..]);
    }
  }

  /** The item the config generator writes, `'Name' => d` with any white
      space around the arrow, enables Name exactly when d is 1. */
  lemma ConfigItem(n: string, gap1: string, gap2: string, d: char)
    requires n != "" && forall k :: 0 <= k < |n| ==> IsWordChar(n[k])
    requires forall k :: 0 <= k < |gap1| ==> IsJsWhitespace(gap1[k])
    requires forall k :: 0 <= k < |gap2| ==> IsJsWhitespace(gap2[k])
    requires d == '0' || d == '1'
    ensures EnabledName("'" + n + "'" + gap1 + "=>" + gap2 + [d]) == if d == '1' then Some(n) else None
  {
    var item := "'" + n + "'" + gap1 + "=>" + gap2 + [d];
    ConfigLineParts(n, gap1, gap2, d);
    ConfigItemAt(item, n, gap1, gap2);
  }

  /** Where the parts of a generated config item lie. */
  lemma ConfigLineParts(n: string, gap1: string, gap2: string, d: char)
    ensures var item := "'" + n + "'" + gap1 + "=>" + gap2 + [d];
      && var k := 2 + |n| + |gap1|;
      && |item| == k + 3 + |gap2|
      && item[0] == '\'' && item[1..1 + |n|] == n && item[1 + |n|] == '\''
      && item[2 + |n|..k] == gap1 && item[k] == '=' && item[k + 1] == '>'
      && item[k + 2..k + 2 + |gap2|] == gap2 && item[k + 2 + |gap2|] == d
  {
  }

  /** An item laid out as `'n'`, white space, `=>`, white space and a digit
      matches with that name and digit. */
  lemma ConfigItemAt(item: string, n: string, gap1: string, gap2: string)
    requires n != "" && forall k :: 0 <= k < |n| ==> IsWordChar(n[k])
    requires forall k :: 0 <= k < |gap1| ==> IsJsWhitespace(gap1[k])
    requires forall k :: 0 <= k < |gap2| ==> IsJsWhitespace(gap2[k])
    requires var k := 2 + |n| + |gap1|;
      && |item| == k + 3 + |gap2|
      && item[0] == '\'' && item[1..1 + |n|] == n && item[1 + |n|] == '\''
      && item[2 + |n|..k] == gap1 && item[k] == '=' && item[k + 1] == '>'
      && item[k + 2..k + 2 + |gap2|] == gap2 && (item[k + 2 + |gap2|] == '0' || item[k + 2 + |gap2|] == '1')
    ensures var d := item[|item| - 1];
      EnabledName(item) == if d == '1' then Some(n) else None
  {
    var e := 1 + |n|;
    var j := e + 3 + |gap1| + |gap2|;
    WordEndOver(item, 1, n);
    ArrowOver(item, e + 1, gap1, gap2);
    ItemMatchOf(item, n, j);
  }

  /** `\s*=>\s*` over two runs of white space around the arrow. */
  lemma ArrowOver(s: string, i: nat, gap1: string, gap2: string)
    requires forall k :: 0 <= k < |gap1| ==> IsJsWhitespace(gap1[k])
    requires forall k :: 0 <= k < |gap2| ==> IsJsWhitespace(gap2[k])
    requires i + |gap1| + 2 + |gap2| < |s|
    requires s[i..i + |gap1|] == gap1
    requires s[i + |gap1|] == '=' && s[i + |gap1| + 1] == '>'
    requires s[i + |gap1| + 2..i + |gap1| + 2 + |gap2|] == gap2
    requires !IsJsWhitespace(s[i + |gap1| + 2 + |gap2|])
    ensures ArrowEnd(s, i) == Some(i + |gap1| + 2 + |gap2|)
  {
    SkipWsOver(s, i, gap1);
    SkipWsOver(s, i + |gap1| + 2, gap2);
  }

  /** The item pattern at the start of `s`, once its parts are located. */
  lemma ItemMatchOf(s: string, n: string, j: nat)
    requires n != "" && 1 + |n| < |s| && s[0] == '\'' && s[1..1 + |n|] == n && s[1 + |n|] == '\''
    requires WordEnd(s, 1) == 1 + |n|
    requires ArrowEnd(s, 2 + |n|) == Some(j) && j < |s| && (s[j] == '0' || s[j] == '1')
    ensures ItemMatchAt(s, 0) == Some(ItemMatch(n, s[j]))
    ensures EnabledName(s) == if s[j] == '1' then Some(n) else None
  {
  }

  /** Without a `'modules' => [` head the body is empty, which splits into
      one empty item that enables nothing. */
  lemma NoModulesArray(rawConfig: string)
    requires forall k :: 0 <= k <= |rawConfig| ==> HeadEnd(rawConfig, k).None?
    ensures EnabledOf(Items(ArrayBody(rawConfig))) == []
  {
    assert Items("") == [""];
    assert ItemMatchAt("", 0) == None;
    assert EnabledOf([""]) == EnabledOf([]) + [];
  }

  // ------------------------------------------------------ static directory

  /** The TypeError node's `path.join` throws for an `undefined` argument. */
  const JOIN_UNDEFINED := "The \"path\" argument must be of type string. Received undefined"

  /** `getStaticDirForTheme(theme)`: pub/static/area/vendor/name, with vendor
      and name split from the theme ID. An ID without a '/' leaves `name`
      undefined, and `join` throws. */
  function GetStaticDirForTheme(theme: Theme): (r: Result<string>)
    ensures r.Err? <==> '/' !in theme.themeID
  {
    var parts := Split(theme.themeID, '/');
    SplitPieces(theme.themeID, '/');
    if |parts| < 2 then Err(JOIN_UNDEFINED)
    else Ok(Paths.Join(Paths.Join(Paths.Join(Paths.Join("pub", "static"), theme.area), parts[0]), parts[1]))
  }

  /** "vendor/name" splits into its two halves. */
  lemma SplitThemeID(vendor: string, name: string)
    requires '/' !in vendor && '/' !in name
    ensures Split(vendor + "/" + name, '/') == [vendor, name]
  {
    assert vendor + "/" + name == vendor + ['/'] + name;
    SplitAtFirst(vendor, '/', name);
    SplitWithoutSeparator(name, '/');
  }

  /** Joining non-empty segments puts one '/' between each two. */
  lemma JoinStaticDir(area: string, vendor: string, name: string)
    requires area != "" && vendor != "" && name != ""
    ensures Paths.Join(Paths.Join(Paths.Join(Paths.Join("pub", "static"), area), vendor), name)
         == "pub/static/" + area + "/" + vendor + "/" + name
  {
    var a := Paths.Join("pub", "static");
    assert a == "pub/static";
    var b := Paths.Join(a, area);
    assert b == "pub/static/" + area;
    var c := Paths.Join(b, vendor);
    assert c == "pub/static/" + area + "/" + vendor;
  }

  /** A theme whose ID is "vendor/name" is deployed under
      pub/static/area/vendor/name. */
  lemma StaticDirOfThemeID(theme: Theme, vendor: string, name: string)
    requires theme.area != "" && vendor != "" && name != ""
    requires '/' !in vendor && '/' !in name
    requires theme.themeID == vendor + "/" + name
    ensures GetStaticDirForTheme(theme) == Ok("pub/static/" + theme.area + "/" + vendor + "/" + name)
  {
    SplitThemeID(vendor, name);
    JoinStaticDir(theme.area, vendor, name);
  }

  // ------------------------------------------------------------- locales

  predicate IsAsciiLetter(c: char)
  {
    'a' <= c <= 'z' || 'A' <= c <= 'Z'
  }

  /** `/^[a-z]{2}(?:_[a-z]{2})?$/i`: two letters, optionally an underscore and
      two more, in either case. */
  predicate IsLocale(d: string)
  {
    || (|d| == 2 && IsAsciiLetter(d[0]) && IsAsciiLetter(d[1]))
    || (|d| == 5 && IsAsciiLetter(d[0]) && IsAsciiLetter(d[1]) && d[2] == '_'
                 && IsAsciiLetter(d[3]) && IsAsciiLetter(d[4]))
  }

  /** The locale filter of getLocalesForDeployedTheme. */
  function LocalesOf(dirs: seq<string>): (locales: seq<string>)
    ensures forall d :: d in locales <==> d in dirs && IsLocale(d)
  {
    FilterExactly(dirs, IsLocale);
    Filter(dirs, IsLocale)
  }

  /** A few names: language and language_REGION are locales, in any case;
      a hyphen, a three-letter code or a bare region are not. */
  lemma LocaleExamples()
    ensures IsLocale("en_US") && IsLocale("fr") && IsLocale("PT_br")
    ensures !IsLocale("en-US") && !IsLocale("eng") && !IsLocale("_US") && !IsLocale("")
  {
  }

  // -------------------------------------------------------- deployed themes

  /** `[a-zA-Z0-9-_]`: the '-' after the range 0-9 is a literal hyphen. */
  predicate IsThemeDirChar(c: char)
  {
    IsAsciiLetter(c) || '0' <= c <= '9' || c == '-' || c == '_'
  }

  /** `/^[a-zA-Z0-9-_]+$/` */
  predicate IsThemeDirName(e: string)
  {
    |e| > 0 && forall k :: 0 <= k < |e| ==> IsThemeDirChar(e[k])
  }

  /** getDeployedThemesForVendor, given the vendor directory's entries: the
      theme directories, reported as "vendor/name". */
  function ThemesForVendor(vendor: string, entries: seq<string>): seq<string>
  {
    var names := Filter(entries, IsThemeDirName);
    seq(|names|, i requires 0 <= i < |names| => vendor + "/" + names[i])
  }

  /** Exactly the well-named entries are reported, each under its vendor. */
  lemma ThemesForVendorExactly(vendor: string, entries: seq<string>, id: string)
    ensures id in ThemesForVendor(vendor, entries) <==>
              exists e :: e in entries && IsThemeDirName(e) && id == vendor + "/" + e
  {
    FilterExactly(entries, IsThemeDirName);
    var names := Filter(entries, IsThemeDirName);
    if exists e :: e in entries && IsThemeDirName(e) && id == vendor + "/" + e {
      var e :| e in entries && IsThemeDirName(e) && id == vendor + "/" + e;
      var i :| 0 <= i < |names| && names[i] == e;
      assert ThemesForVendor(vendor, entries)[i] == id;
    }
  }

  /** The themes of each vendor of one area, vendor after vendor. */
  function AreaThemes(area: string, vendors: seq<string>, entries: (string, string) -> seq<string>): seq<seq<string>>
  {
    seq(|vendors|, i requires 0 <= i < |vendors| => ThemesForVendor(vendors[i], entries(area, vendors[i])))
  }

  /** `getDeployedThemes(magentoRoot)`, given the vendor directories of
      pub/static/frontend and pub/static/adminhtml and the entries of each
      vendor directory: the frontend themes, then the adminhtml themes. */
  function DeployedThemes(frontendVendors: seq<string>, adminVendors: seq<string>,
                          entries: (string, string) -> seq<string>): seq<string>
  {
    Flatten.Flatten(AreaThemes(FRONTEND, frontendVendors, entries)) + Flatten.Flatten(AreaThemes(ADMINHTML, adminVendors, entries))
  }

  /** A deployed theme is a well-named directory of a vendor directory of
      one of the two areas, and every such directory is reported. */
  lemma DeployedThemesExactly(frontendVendors: seq<string>, adminVendors: seq<string>,
                              entries: (string, string) -> seq<string>, id: string)
    ensures id in DeployedThemes(frontendVendors, adminVendors, entries) <==>
      exists area, vendor, e ::
        && ((area == FRONTEND && vendor in frontendVendors) || (area == ADMINHTML && vendor in adminVendors))
        && e in entries(area, vendor) && IsThemeDirName(e) && id == vendor + "/" + e
  {
    AreaMember(FRONTEND, frontendVendors, entries, id);
    AreaMember(ADMINHTML, adminVendors, entries, id);
  }

  /** `id` is a well-named theme directory of a vendor directory of `area`. */
  predicate DeployedIn(area: string, vendors: seq<string>, entries: (string, string) -> seq<string>, id: string)
  {
    exists vendor, e :: vendor in vendors && e in entries(area, vendor) && IsThemeDirName(e) && id == vendor + "/" + e
  }

  /** The frontend themes come first: the list splits into a part whose
      every theme is deployed under pub/static/frontend, as long as the
      frontend area's own list, and a part whose every theme is deployed
      under pub/static/adminhtml. */
  lemma DeployedThemesFrontendFirst(frontendVendors: seq<string>, adminVendors: seq<string>,
                                    entries: (string, string) -> seq<string>)
    ensures var r := DeployedThemes(frontendVendors, adminVendors, entries);
            var n := |Flatten.Flatten(AreaThemes(FRONTEND, frontendVendors, entries))|;
            && n <= |r|
            && (forall i :: 0 <= i < n ==> DeployedIn(FRONTEND, frontendVendors, entries, r[i]))
            && (forall i :: n <= i < |r| ==> DeployedIn(ADMINHTML, adminVendors, entries, r[i]))
  {
    var front := Flatten.Flatten(AreaThemes(FRONTEND, frontendVendors, entries));
    var admin := Flatten.Flatten(AreaThemes(ADMINHTML, adminVendors, entries));
    var r := DeployedThemes(frontendVendors, adminVendors, entries);
    forall i | 0 <= i < |front| ensures DeployedIn(FRONTEND, frontendVendors, entries, r[i]) {
      assert r[i] == front[i];
      AreaMember(FRONTEND, frontendVendors, entries, r[i]);
    }
    forall i | |front| <= i < |r| ensures DeployedIn(ADMINHTML, adminVendors, entries, r[i]) {
      assert r[i] == admin[i - |front|];
      AreaMember(ADMINHTML, adminVendors, entries, r[i]);
    }
  }

  lemma AreaMember(area: string, vendors: seq<string>, entries: (string, string) -> seq<string>, id: string)
    ensures id in Flatten.Flatten(AreaThemes(area, vendors, entries)) <==>
      exists vendor, e :: vendor in vendors && e in entries(area, vendor) && IsThemeDirName(e) && id == vendor + "/" + e
  {
    var xss := AreaThemes(area, vendors, entries);
    Flatten.FlattenMember(xss, id);
    if id in Flatten.Flatten(xss) {
      var i :| 0 <= i < |xss| && id in xss[i];
      ThemesForVendorExactly(vendors[i], entries(area, vendors[i]), id);
    }
    if exists vendor, e :: vendor in vendors && e in entries(area, vendor) && IsThemeDirName(e) && id == vendor + "/" + e {
      var vendor, e :| vendor in vendors && e in entries(area, vendor) && IsThemeDirName(e) && id == vendor + "/" + e;
      var i :| 0 <= i < |vendors| && vendors[i] == vendor;
      ThemesForVendorExactly(vendor, entries(area, vendor), id);
      assert id in xss[i];
    }
  }

  // --------------------------------------------------------- theme records

  /** One entry of getThemesFromPaths: the component ID "area/vendor/name",
      its directory and the parent named in its theme.xml. Missing segments
      are `undefined`. */
  function ThemeFromPath(fullID: string, path: string, parent: string): Theme
  {
    var parts := Split(fullID, '/');
    var vendor := SegmentOr(parts, 1);
    var name := SegmentOr(parts, 2);
    Theme(vendor, name, vendor + "/" + name, parts[0], Some(parent), path)
  }

  /** "area/vendor/name" gives the theme "vendor/name" of that area. */
  lemma ThemeFromPathSplits(area: string, vendor: string, name: string, path: string, parent: string)
    requires '/' !in area && '/' !in vendor && '/' !in name
    ensures ThemeFromPath(area + "/" + vendor + "/" + name, path, parent)
         == Theme(vendor, name, vendor + "/" + name, area, Some(parent), path)
  {
    var parts := [area, vendor, name];
    assert Join(parts, "/") == area + "/" + vendor + "/" + name by {
      assert parts[1..] == [vendor, name];
      assert [vendor, name][1..] == [name];
      assert Join([name], "/") == name;
      assert Join([vendor, name], "/") == vendor + "/" + name;
    }
    SplitJoin(parts, '/');
  }

  /** The theme built from "area/vendor/name" is deployed under
      pub/static/area/vendor/name. */
  lemma StaticDirOfPath(area: string, vendor: string, name: string, path: string, parent: string)
    requires '/' !in area && '/' !in vendor && '/' !in name
    requires area != "" && vendor != "" && name != ""
    ensures GetStaticDirForTheme(ThemeFromPath(area + "/" + vendor + "/" + name, path, parent))
         == Ok("pub/static/" + area + "/" + vendor + "/" + name)
  {
    ThemeFromPathSplits(area, vendor, name, path, parent);
    StaticDirOfThemeID(ThemeFromPath(area + "/" + vendor + "/" + name, path, parent), vendor, name);
  }

  /** Every key of the record names the theme stored under it. */
  predicate KeyedByThemeID(themes: Record<Theme>)
  {
    forall k :: k in themes.values ==> themes.values[k].themeID == k
  }

  /** `fromEntries` over the component IDs listed (in order), with
      `parentOf` giving the parent read from each theme directory: a later
      theme with the same ID replaces the earlier one in its place. */
  function ThemesFromPaths(ids: seq<string>, paths: map<string, string>, parentOf: string -> string): (r: Record<Theme>)
    requires forall id :: id in ids ==> id in paths
    ensures r.Valid() && KeyedByThemeID(r)
    ensures forall k :: k in r.values ==> exists id :: id in ids && r.values[k] == ThemeFromPath(id, paths[id], parentOf(paths[id]))
  {
    if |ids| == 0 then Empty()
    else
      var init := ThemesFromPaths(ids[..|ids| - 1], paths, parentOf);
      var id := ids[|ids| - 1];
      var t := ThemeFromPath(id, paths[id], parentOf(paths[id]));
      var r := ImmutAddProp(init, t.themeID, t);
      assert forall k :: k in r.values && k != t.themeID ==> r.values[k] == init.values[k];
      r
  }

  /** Every listed component becomes a theme of the record, under its own
      theme ID. */
  lemma {:induction false} ThemesFromPathsComplete(ids: seq<string>, paths: map<string, string>, parentOf: string -> string, id: string)
    requires forall i :: i in ids ==> i in paths
    requires id in ids
    ensures ThemeFromPath(id, paths[id], parentOf(paths[id])).themeID in ThemesFromPaths(ids, paths, parentOf).values
  {
    var last := ids[|ids| - 1];
    if id != last {
      assert id in ids[..|ids| - 1] by {
        var i :| 0 <= i < |ids| && ids[i] == id;
        assert ids[..|ids| - 1][i] == id;
      }
      ThemesFromPathsComplete(ids[..|ids| - 1], paths, parentOf, id);
    }
  }
}
