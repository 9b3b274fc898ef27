/**
 * Package-manager dispatch of UpdateDistributionPackagesAsync: the text of
 * /etc/os-release is searched, ignoring case, for the names of known
 * distribution families in a fixed order; the first family found picks the
 * update command, and apt is the fallback when none is found.
 */
module PackageManagers {
  import opened Text

  datatype PackageManager = Apt | Apk | Pacman | Zypper | DnfOrYum

  /** Position of a family's test in the if/else-if chain. */
  function Rank(m: PackageManager): nat {
    match m
    case Apt => 0
    case Apk => 1
    case Pacman => 2
    case Zypper => 3
    case DnfOrYum => 4
  }

  /** The text names the family: one of the words the source tests for
      it occurs, ignoring case. */
  predicate Mentions(text: string, m: PackageManager) {
    match m
    case Apt => ContainsIgnoreCase(text, "Ubuntu") || ContainsIgnoreCase(text, "Debian")
    case Apk => ContainsIgnoreCase(text, "Alpine")
    case Pacman => ContainsIgnoreCase(text, "Arch")
    case Zypper => ContainsIgnoreCase(text, "openSUSE") || ContainsIgnoreCase(text, "SUSE")
    case DnfOrYum =>
      ContainsIgnoreCase(text, "Fedora") || ContainsIgnoreCase(text, "Red Hat")
      || ContainsIgnoreCase(text, "CentOS")
  }

  /** The if/else-if chain over the os-release text. The result is the
      family of lowest rank the text mentions, or apt when it mentions none. */
  function Detect(osRelease: string): (m: PackageManager)
    ensures m != Apt ==> Mentions(osRelease, m)
    ensures forall other :: Rank(other) < Rank(m) ==> !Mentions(osRelease, other)
    ensures m == Apt && !Mentions(osRelease, Apt) ==> forall other :: !Mentions(osRelease, other)
  {
    if ContainsIgnoreCase(osRelease, "Ubuntu") || ContainsIgnoreCase(osRelease, "Debian") then Apt
    else if ContainsIgnoreCase(osRelease, "Alpine") then Apk
    else if ContainsIgnoreCase(osRelease, "Arch") then Pacman
    else if ContainsIgnoreCase(osRelease, "openSUSE") || ContainsIgnoreCase(osRelease, "SUSE") then Zypper
    else if ContainsIgnoreCase(osRelease, "Fedora") || ContainsIgnoreCase(osRelease, "Red Hat")
      || ContainsIgnoreCase(osRelease, "CentOS") then DnfOrYum
    else Apt
  }

  /** The shell command run inside the distribution for each family. */
  function UpdateCommand(m: PackageManager): string {
    match m
    case Apt => "sudo apt update && sudo apt upgrade -y"
    case Apk => "sudo apk update && sudo apk upgrade"
    case Pacman => "sudo pacman -Syu --noconfirm"
    case Zypper => "sudo zypper update -y"
    case DnfOrYum => "sudo dnf update -y || sudo yum update -y"
  }

  /** Detect picks a family exactly when the text mentions it and no family
      tested earlier; apt is picked for a text mentioning apt's words or
      none at all. */
  lemma DetectIff(text: string, m: PackageManager)
    ensures Detect(text) == m <==>
      (Mentions(text, m) || (m == Apt && forall other :: !Mentions(text, other)))
      && forall other :: Rank(other) < Rank(m) ==> !Mentions(text, other)
  {
  }

  /** Upper-casing is idempotent, so a text and its upper-case form select
      the same family: the dispatch is case-insensitive. */
  lemma DetectIgnoresCase(text: string)
    ensures Detect(ToUpper(text)) == Detect(text)
  {
    var u := ToUpper(text);
    assert ToUpper(u) == u;
    forall w: string ensures ContainsIgnoreCase(u, w) == ContainsIgnoreCase(text, w) {
    }
  }

  /** What the upper-case copy of a prefix contains, the whole text
      contains. */
  lemma ContainsIgnoreCasePrefix(a: string, b: string, w: string)
    requires ContainsIgnoreCase(a, w)
    ensures ContainsIgnoreCase(a + b, w)
  {
    assert ToUpper(a + b)[..|a|] == ToUpper(a);
    ContainsSlice(ToUpper(a + b), 0, |a|, ToUpper(w));
  }

  /** Ubuntu and Debian are tested first: whatever follows their name, the
      text selects apt. */
  lemma DebianFamilyWins(a: string, b: string)
    requires ContainsIgnoreCase(a, "Ubuntu") || ContainsIgnoreCase(a, "Debian")
    ensures Detect(a + b) == Apt
  {
    if ContainsIgnoreCase(a, "Ubuntu") {
      ContainsIgnoreCasePrefix(a, b, "Ubuntu");
    } else {
      ContainsIgnoreCasePrefix(a, b, "Debian");
    }
  }

  /** "SUSE" alone is enough for zypper: the "openSUSE" test adds nothing. */
  lemma OpenSuseImpliesSuse(text: string)
    requires ContainsIgnoreCase(text, "openSUSE")
    ensures ContainsIgnoreCase(text, "SUSE")
  {
    var t := ToUpper(text);
    var w := ToUpper("openSUSE");
    assert w == "OPENSUSE";
    var i := ContainsWitness(t, w);
    assert t[i..i + 8] == w;
    assert t[i + 4..i + 8] == w[4..] == ToUpper("SUSE");
    ContainsAt(t, ToUpper("SUSE"), i + 4);
  }

  /** An os-release line "ID=<id>" mentions every word that equals the
      identifier up to case. */
  lemma IdLine(id: string, word: string)
    requires ToUpper(id) == ToUpper(word)
    ensures ContainsIgnoreCase("ID=" + id, word)
  {
    var t := ToUpper("ID=" + id);
    assert t[3..][..|id|] == ToUpper(word);
    ContainsAt(t, ToUpper(word), 3);
  }

  /** An empty os-release (the read failed to produce output) falls back
      to apt. */
  lemma DetectEmpty()
    ensures Detect("") == Apt
  {
    assert !ContainsIgnoreCase("", "Ubuntu");
    assert !ContainsIgnoreCase("", "Debian");
  }

  /** A Debian identifier line selects apt. */
  lemma DetectDebian()
    ensures Detect("ID=debian") == Apt
  {
    assert ToUpper("debian") == ToUpper("Debian");
    IdLine("debian", "Debian");
    assert "ID=" + "debian" == "ID=debian";
  }

  /** The test order shadows later families: a Fedora text that also holds
      the letters "arch" (as in "search" or "archive") selects pacman. */
  lemma ArchShadowsFedora(text: string)
    requires ContainsIgnoreCase(text, "Arch") && ContainsIgnoreCase(text, "Fedora")
    requires !Mentions(text, Apt) && !Mentions(text, Apk)
    ensures Detect(text) == Pacman
  {
  }
}
