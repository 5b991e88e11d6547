/** The user-agent classifier of app/lib/analytics.server.ts. It is a
    heuristic of ordered substring tests: for the browser and for the
    operating system, the first test that matches decides, and the device
    follows from which operating-system test fired. Because of the order,
    some labels are unreachable for common real user agents: an Android user
    agent carries "Linux" and an iOS one carries "Mac OS". */
module UserAgent {
  import opened Text

  datatype Agent = Agent(browser: string, os: string, device: string)

  const BrowserLabels: set<string> :=
    {"Firefox", "Chrome", "Safari", "Edge", "Internet Explorer", "Unknown"}
  const OsLabels: set<string> := {"Windows", "macOS", "Linux", "Android", "iOS", "Unknown"}
  const DeviceLabels: set<string> := {"Desktop", "Mobile", "Tablet"}

  /** `parseUserAgent`: total, and every field is one of its fixed labels.
      A device other than "Desktop" can only come from the Android or iOS
      test: "Mobile" exactly for Android and for iOS without "iPad", and
      "Tablet" exactly when the iOS test fired on an "iPad". */
  function Parse(ua: string): (a: Agent)
    ensures a.browser in BrowserLabels
    ensures a.os in OsLabels
    ensures a.device in DeviceLabels
    ensures a.device != "Desktop" ==> a.os == "Android" || a.os == "iOS"
    ensures a.device == "Tablet" <==> a.os == "iOS" && Contains(ua, "iPad")
    ensures a.device == "Mobile" <==> a.os == "Android" || (a.os == "iOS" && !Contains(ua, "iPad"))
  {
    var browser :=
      if Contains(ua, "Firefox") then "Firefox"
      else if Contains(ua, "Chrome") then "Chrome"
      else if Contains(ua, "Safari") then "Safari"
      else if Contains(ua, "Edge") then "Edge"
      else if Contains(ua, "MSIE") || Contains(ua, "Trident/") then "Internet Explorer"
      else "Unknown";
    var osAndDevice :=
      if Contains(ua, "Windows") then ("Windows", "Desktop")
      else if Contains(ua, "Mac OS") then ("macOS", "Desktop")
      else if Contains(ua, "Linux") then ("Linux", "Desktop")
      else if Contains(ua, "Android") then ("Android", "Mobile")
      else if Contains(ua, "iPhone") || Contains(ua, "iPad") then
        ("iOS", if Contains(ua, "iPad") then "Tablet" else "Mobile")
      else ("Unknown", "Desktop");
    Agent(browser, osAndDevice.0, osAndDevice.1)
  }

  /** The classifier as data: a rule fires when any of its tokens occurs. */
  datatype Rule = Rule(tokens: seq<string>, name: string)

  const BrowserRules: seq<Rule> := [
    Rule(["Firefox"], "Firefox"),
    Rule(["Chrome"], "Chrome"),
    Rule(["Safari"], "Safari"),
    Rule(["Edge"], "Edge"),
    Rule(["MSIE", "Trident/"], "Internet Explorer")
  ]

  const OsRules: seq<Rule> := [
    Rule(["Windows"], "Windows"),
    Rule(["Mac OS"], "macOS"),
    Rule(["Linux"], "Linux"),
    Rule(["Android"], "Android"),
    Rule(["iPhone", "iPad"], "iOS")
  ]

  predicate Fires(rule: Rule, ua: string) {
    exists t | t in rule.tokens :: Contains(ua, t)
  }

  /** The label of the first rule that fires, or the fallback. */
  function FirstMatch(rules: seq<Rule>, ua: string, fallback: string): string
    decreases |rules|
  {
    if rules == [] then fallback
    else if Fires(rules[0], ua) then rules[0].name
    else FirstMatch(rules[1..], ua, fallback)
  }

  /** First match wins: the rule at `i` decides when it fires and no
      earlier rule does, whatever the later rules would say. */
  lemma {:induction false} FirstMatchPicksEarliest(rules: seq<Rule>, ua: string, fallback: string, i: nat)
    requires i < |rules| && Fires(rules[i], ua)
    requires forall j | 0 <= j < i :: !Fires(rules[j], ua)
    ensures FirstMatch(rules, ua, fallback) == rules[i].name
    decreases i
  {
    if i > 0 {
      assert !Fires(rules[0], ua);
      assert forall j | 0 <= j < i - 1 :: rules[1..][j] == rules[j + 1];
      FirstMatchPicksEarliest(rules[1..], ua, fallback, i - 1);
    }
  }

  /** When no rule fires the fallback is returned. */
  lemma {:induction false} FirstMatchFallsBack(rules: seq<Rule>, ua: string, fallback: string)
    requires forall j | 0 <= j < |rules| :: !Fires(rules[j], ua)
    ensures FirstMatch(rules, ua, fallback) == fallback
    decreases |rules|
  {
    if rules != [] {
      assert forall j | 0 <= j < |rules| - 1 :: rules[1..][j] == rules[j + 1];
      FirstMatchFallsBack(rules[1..], ua, fallback);
    }
  }

  /** The browser of `Parse` is the first-match reading of BrowserRules,
      with "Unknown" as the fallback. */
  lemma ParseBrowserFollowsRuleTable(ua: string)
    ensures Parse(ua).browser == FirstMatch(BrowserRules, ua, "Unknown")
  {
    var rs := BrowserRules;
    assert Fires(rs[0], ua) <==> Contains(ua, "Firefox") by { assert rs[0].tokens == ["Firefox"]; }
    assert Fires(rs[1], ua) <==> Contains(ua, "Chrome") by { assert rs[1].tokens == ["Chrome"]; }
    assert Fires(rs[2], ua) <==> Contains(ua, "Safari") by { assert rs[2].tokens == ["Safari"]; }
    assert Fires(rs[3], ua) <==> Contains(ua, "Edge") by { assert rs[3].tokens == ["Edge"]; }
    assert Fires(rs[4], ua) <==> Contains(ua, "MSIE") || Contains(ua, "Trident/") by {
      assert rs[4].tokens == ["MSIE", "Trident/"];
    }
    assert rs[4..][1..] == [];
    assert rs[3..][1..] == rs[4..];
    assert rs[2..][1..] == rs[3..];
    assert rs[1..][1..] == rs[2..];
  }

  /** The operating system of `Parse` is the first-match reading of
      OsRules, with "Unknown" as the fallback. */
  lemma ParseOsFollowsRuleTable(ua: string)
    ensures Parse(ua).os == FirstMatch(OsRules, ua, "Unknown")
  {
    var rs := OsRules;
    assert Fires(rs[0], ua) <==> Contains(ua, "Windows") by { assert rs[0].tokens == ["Windows"]; }
    assert Fires(rs[1], ua) <==> Contains(ua, "Mac OS") by { assert rs[1].tokens == ["Mac OS"]; }
    assert Fires(rs[2], ua) <==> Contains(ua, "Linux") by { assert rs[2].tokens == ["Linux"]; }
    assert Fires(rs[3], ua) <==> Contains(ua, "Android") by { assert rs[3].tokens == ["Android"]; }
    assert Fires(rs[4], ua) <==> Contains(ua, "iPhone") || Contains(ua, "iPad") by {
      assert rs[4].tokens == ["iPhone", "iPad"];
    }
    assert rs[4..][1..] == [];
    assert rs[3..][1..] == rs[4..];
    assert rs[2..][1..] == rs[3..];
    assert rs[1..][1..] == rs[2..];
  }

  /** "Chrome" outranks "Safari" and "Edge": a Chrome, Safari or legacy Edge
      user agent without "Firefox" is labelled Chrome. */
  lemma ChromeShadowsSafariAndEdge(ua: string)
    requires Contains(ua, "Chrome") && !Contains(ua, "Firefox")
    ensures Parse(ua).browser == "Chrome"
  {
  }

  /** "Edge" is reported only when none of the three earlier tokens occurs. */
  lemma EdgeNeedsNoEarlierToken(ua: string)
    ensures Parse(ua).browser == "Edge" <==>
      Contains(ua, "Edge") && !Contains(ua, "Firefox") && !Contains(ua, "Chrome") && !Contains(ua, "Safari")
  {
  }

  /** A user agent containing "Linux" is always a desktop, and never
      Android, even when it also contains "Android". */
  lemma LinuxIsDesktop(ua: string)
    requires Contains(ua, "Linux")
    ensures Parse(ua).device == "Desktop"
    ensures Parse(ua).os in {"Windows", "macOS", "Linux"}
  {
  }

  /** A user agent containing "Mac OS" but not "Windows" is a macOS desktop,
      even when it also contains "iPhone" or "iPad". */
  lemma MacOsShadowsIos(ua: string)
    requires Contains(ua, "Mac OS") && !Contains(ua, "Windows")
    ensures Parse(ua).os == "macOS" && Parse(ua).device == "Desktop"
  {
  }

  /** A stock Android phone user agent. */
  const AndroidChromePieces: seq<string> := [
    "Mozilla/5.0 (", "Linux", "; ", "Android", " 14; Pixel 8) ", "AppleWebKit/537.36 ",
    "(KHTML, like Gecko) ", "Chrome", "/120.0.0.0 ", "Mobile Safari/537.36"
  ]

  /** A stock iPhone user agent. */
  const IPhoneSafariPieces: seq<string> := [
    "Mozilla/5.0 (", "iPhone", "; CPU iPhone OS 17_0 ", "like ", "Mac OS", " X) ",
    "AppleWebKit/605.1.15 ", "(KHTML, like Gecko) ", "Version/17.0 ", "Mobile/15E148 ",
    "Safari", "/604.1"
  ]

  /** The classification of the stock Android user agent, from the tokens
      it holds and lacks. */
  lemma AndroidChromeVerdict(ua: string)
    requires Contains(ua, "Linux") && Contains(ua, "Chrome")
    requires !Contains(ua, "Firefox") && !Contains(ua, "Windows") && !Contains(ua, "Mac OS")
    ensures Parse(ua) == Agent("Chrome", "Linux", "Desktop")
  {
  }

  /** The classification of the stock iPhone user agent, from the tokens it
      holds and lacks. */
  lemma IPhoneSafariVerdict(ua: string)
    requires Contains(ua, "Mac OS") && Contains(ua, "Safari")
    requires !Contains(ua, "Firefox") && !Contains(ua, "Chrome") && !Contains(ua, "Windows")
    ensures Parse(ua) == Agent("Safari", "macOS", "Desktop")
  {
  }

  /** A token with a character that no piece holds does not occur. */
  lemma LacksToken(pieces: seq<string>, t: string, c: char)
    requires c in t
    requires forall k | 0 <= k < |pieces| :: c !in pieces[k]
    ensures !Contains(Concat(pieces), t)
  {
    ConcatLacksChar(pieces, c);
    MissingCharExcludes(Concat(pieces), t, c);
  }

  /** The tokens the stock Android user agent holds. */
  lemma AndroidChromeHolds(ps: seq<string>)
    requires ps == AndroidChromePieces
    ensures Contains(Concat(ps), "Linux")
    ensures Contains(Concat(ps), "Android")
    ensures Contains(Concat(ps), "Chrome")
  {
    ConcatContainsPiece(ps, 1);
    ConcatContainsPiece(ps, 3);
    ConcatContainsPiece(ps, 7);
  }

  /** The tokens the stock iPhone user agent holds. */
  lemma IPhoneSafariHolds(ps: seq<string>)
    requires ps == IPhoneSafariPieces
    ensures Contains(Concat(ps), "iPhone")
    ensures Contains(Concat(ps), "Mac OS")
    ensures Contains(Concat(ps), "Safari")
  {
    ConcatContainsPiece(ps, 1);
    ConcatContainsPiece(ps, 4);
    ConcatContainsPiece(ps, 10);
  }

  // The tokens each stock user agent lacks, one lemma per token so that each
  // check of the literal stays small.

  lemma AndroidChromeLacksFirefox(ps: seq<string>)
    requires ps == AndroidChromePieces
    ensures !Contains(Concat(ps), "Firefox")
  {
    LacksToken(ps, "Firefox", 'F');
  }

  lemma AndroidChromeLacksWindows(ps: seq<string>)
    requires ps == AndroidChromePieces
    ensures !Contains(Concat(ps), "Windows")
  {
    LacksToken(ps, "Windows", 'w');
  }

  lemma AndroidChromeLacksMacOS(ps: seq<string>)
    requires ps == AndroidChromePieces
    ensures !Contains(Concat(ps), "Mac OS")
  {
    LacksToken(ps, "Mac OS", 'O');
  }

  lemma IPhoneSafariLacksFirefox(ps: seq<string>)
    requires ps == IPhoneSafariPieces
    ensures !Contains(Concat(ps), "Firefox")
  {
    LacksToken(ps, "Firefox", 'F');
  }

  lemma IPhoneSafariLacksChrome(ps: seq<string>)
    requires ps == IPhoneSafariPieces
    ensures !Contains(Concat(ps), "Chrome")
  {
    LacksToken(ps, "Chrome", 'm');
  }

  lemma IPhoneSafariLacksWindows(ps: seq<string>)
    requires ps == IPhoneSafariPieces
    ensures !Contains(Concat(ps), "Windows")
  {
    LacksToken(ps, "Windows", 'w');
  }

  /** A stock Android phone user agent is classified as a Linux desktop. */
  lemma AndroidPhoneIsLinuxDesktop()
    ensures Contains(Concat(AndroidChromePieces), "Android")
    ensures Parse(Concat(AndroidChromePieces)) == Agent("Chrome", "Linux", "Desktop")
  {
    AndroidChromeHolds(AndroidChromePieces);
    AndroidChromeLacksFirefox(AndroidChromePieces);
    AndroidChromeLacksWindows(AndroidChromePieces);
    AndroidChromeLacksMacOS(AndroidChromePieces);
    AndroidChromeVerdict(Concat(AndroidChromePieces));
  }

  /** A stock iPhone user agent is classified as a macOS desktop. */
  lemma IPhoneIsMacDesktop()
    ensures Contains(Concat(IPhoneSafariPieces), "iPhone")
    ensures Parse(Concat(IPhoneSafariPieces)) == Agent("Safari", "macOS", "Desktop")
  {
    IPhoneSafariHolds(IPhoneSafariPieces);
    IPhoneSafariLacksFirefox(IPhoneSafariPieces);
    IPhoneSafariLacksChrome(IPhoneSafariPieces);
    IPhoneSafariLacksWindows(IPhoneSafariPieces);
    IPhoneSafariVerdict(Concat(IPhoneSafariPieces));
  }
}
