/** The path of the lock file that guards the repository config (`lockRepositoryFile`). */
module LockPath {
  import opened Outcomes
  import opened FilePath
  import opened Strings

  /** The text that takes the place of the config file's extension. */
  const LockExt: string := ".lock"

  /** The lock-file path for a repository config path: the first occurrence of the config's
      extension text is replaced by `.lock` when the extension is non-empty and shorter than
      the whole path; otherwise `.lock` is appended. */
  function LockPath(config: string): (lock: string)
    ensures 0 < |Ext(config)| < |config| ==>
              forall i :: FirstOccurrence(config, Ext(config), i) ==>
                && i <= |config| - |Ext(config)|
                && lock == config[..i] + LockExt + config[i + |Ext(config)|..]
    ensures !(0 < |Ext(config)| < |config|) ==> lock == config + LockExt
  {
    var ext := Ext(config);
    if 0 < |ext| < |config| then
      ExtensionOccursAtEnd(config);
      assert forall i :: FirstOccurrence(config, ext, i) ==> i <= |config| - |ext| by {
        forall i | FirstOccurrence(config, ext, i) ensures i <= |config| - |ext| {
          FirstOccurrenceIsEarliest(config, ext, i, |config| - |ext|);
        }
      }
      ReplaceFirst(config, ext, LockExt)
    else config + LockExt
  }

  /** With a proper extension, the lock path is the config path with the leftmost occurrence of
      the extension's text replaced by `.lock`; that occurrence is the suffix itself or lies
      before it. */
  lemma ReplacesFirstOccurrence(config: string, i: int)
    requires 0 < |Ext(config)| < |config|
    requires FirstOccurrence(config, Ext(config), i)
    ensures i <= |config| - |Ext(config)|
    ensures LockPath(config) == config[..i] + LockExt + config[i + |Ext(config)|..]
  {
    var ext := Ext(config);
    ExtensionOccursAtEnd(config);
    FirstOccurrenceIsEarliest(config, ext, i, |config| - |ext|);
    ProperExtensionIsReplaced(config);
    ReplaceFirstAt(config, ext, LockExt, i);
  }

  /** The extension occurs in the path as its suffix. */
  lemma ExtensionOccursAtEnd(config: string)
    ensures OccursAt(config, Ext(config), |config| - |Ext(config)|)
  {
  }

  /** With a proper extension, the lock path is the first-occurrence replacement of it. */
  lemma ProperExtensionIsReplaced(config: string)
    requires 0 < |Ext(config)| < |config|
    ensures LockPath(config) == ReplaceFirst(config, Ext(config), LockExt)
  {
  }

  /** When the extension's text occurs nowhere before the suffix, the lock path is the config
      path without its extension, followed by `.lock`. */
  lemma StripsSoleExtension(config: string)
    requires 0 < |Ext(config)| < |config|
    requires forall j :: 0 <= j < |config| - |Ext(config)| ==> !OccursAt(config, Ext(config), j)
    ensures LockPath(config) == config[..|config| - |Ext(config)|] + LockExt
  {
    var ext := Ext(config);
    var k := |config| - |ext|;
    assert OccursAt(config, ext, k);
    assert FirstOccurrence(config, ext, k);
    assert config[k + |ext|..] == [];
  }

  /** Without an extension, or when the whole path is its extension (such as `.yaml`),
      `.lock` is appended to the config path. */
  lemma AppendsWithoutProperExtension(config: string)
    requires !(0 < |Ext(config)| < |config|)
    ensures LockPath(config) == config + LockExt
  {
  }

  /** The lock path names the config file itself exactly when the config's extension is
      `.lock` (and is not the whole path): the replacement then changes nothing. */
  lemma {:induction false} LockIsConfigIff(config: string)
    ensures LockPath(config) == config <==> (Ext(config) == LockExt && |config| > |LockExt|)
  {
    var ext := Ext(config);
    if 0 < |ext| < |config| {
      assert OccursAt(config, ext, |config| - |ext|);
      assert Index(config, ext).Some?;
      var i := Index(config, ext).value;
      ReplacesFirstOccurrence(config, i);
      var lock := LockPath(config);
      assert OccursAt(config, ext, i);
      if lock == config {
        assert |ext| == |LockExt|;
        assert config[i..i + |ext|] == lock[i..i + |LockExt|] == LockExt;
      }
    } else {
      AppendsWithoutProperExtension(config);
      assert |LockPath(config)| == |config| + |LockExt|;
    }
  }

  /** Whatever the config path, the lock path contains `.lock`. */
  lemma MentionsLockExt(config: string)
    ensures exists j :: OccursAt(LockPath(config), LockExt, j)
  {
    var ext := Ext(config);
    if 0 < |ext| < |config| {
      assert OccursAt(config, ext, |config| - |ext|);
      assert Index(config, ext).Some?;
      var i := Index(config, ext).value;
      ReplacesFirstOccurrence(config, i);
      OccursInSplice(config[..i], LockExt, config[i + |ext|..]);
    } else {
      AppendsWithoutProperExtension(config);
      OccursInSplice(config, LockExt, []);
      assert config + LockExt + [] == config + LockExt;
    }
  }

  /** `pat` does not occur at `j` when one of its characters differs from the text there. */
  lemma MismatchAt(s: string, pat: string, j: nat, m: nat)
    requires m < |pat| && j + m < |s| && s[j + m] != pat[m]
    ensures !OccursAt(s, pat, j)
  {
  }

  /** The usual case: `repositories.yaml` is locked through `repositories.lock`. */
  lemma DefaultConfigExample()
    ensures LockPath("/home/u/.config/helm/repositories.yaml") == "/home/u/.config/helm/repositories.lock"
  {
    var head := "/home/u/.config/helm/repositories";
    assert head + ".yaml" + "" == "/home/u/.config/helm/repositories.yaml";
    assert head + LockExt + "" == "/home/u/.config/helm/repositories.lock";
    ExtOfDottedSuffix(head, ".yaml");
    assert head + ".yaml" + "" == head + ".yaml";
    DefaultConfigNoEarlierYaml(head + ".yaml" + "");
    LockPathOfParts(head, ".yaml", "");
  }

  /** In the default config path `.yaml` occurs only as the suffix. */
  lemma DefaultConfigNoEarlierYaml(config: string)
    requires config == "/home/u/.config/helm/repositories.yaml"
    ensures forall j :: 0 <= j < |config| - 5 ==> !OccursAt(config, ".yaml", j)
  {
    forall j | 0 <= j < |config| - 5 ensures !OccursAt(config, ".yaml", j) {
      if config[j] == '.' {
        MismatchAt(config, ".yaml", j, 1);
      } else {
        MismatchAt(config, ".yaml", j, 0);
      }
    }
  }

  /** A path that is only an extension gets `.lock` appended. */
  lemma BareExtensionExample()
    ensures LockPath(".yaml") == ".yaml.lock"
  {
    ExtUnique(".yaml", ".yaml");
  }

  /** Dots in directory names are not extensions: the scan stops at the last separator. */
  lemma DottedDirectoryExample()
    ensures LockPath("conf.d/repositories") == "conf.d/repositories.lock"
  {
    var config := "conf.d/repositories";
    forall i | 0 <= i < |config| && config[i] == '.' ensures !InFinalElement(config, i) {
      assert config[6] == Separator;
    }
    ExtUnique("", config);
  }

  /** A config path split around the leftmost occurrence of its extension's text: the lock
      path keeps both sides and puts `.lock` in between. */
  lemma LockPathOfParts(head: string, ext: string, tail: string)
    requires ext == Ext(head + ext + tail) && ext != [] && head + tail != []
    requires forall j :: 0 <= j < |head| ==> !OccursAt(head + ext + tail, ext, j)
    ensures LockPath(head + ext + tail) == head + LockExt + tail
  {
    var config := head + ext + tail;
    assert config[..|head|] == head && config[|head|..|head| + |ext|] == ext;
    assert config[|head| + |ext|..] == tail;
    ReplacesFirstOccurrence(config, |head|);
  }

  /** The extension's text is replaced where it first occurs, here inside a directory name,
      so the lock file lands in a different directory and the config name is kept. */
  lemma FirstOccurrenceInDirectoryExample()
    ensures LockPath("cfg.yaml/repos.yaml") == "cfg.lock/repos.yaml"
  {
    DirectoryExampleParts();
    var config := "cfg" + ".yaml" + "/repos.yaml";
    ExtOfDottedSuffix("cfg.yaml/repos", ".yaml");
    forall j | 0 <= j < 3 ensures !OccursAt(config, ".yaml", j) {
      MismatchAt(config, ".yaml", j, 0);
    }
    LockPathOfParts("cfg", ".yaml", "/repos.yaml");
  }

  /** The literal pieces the directory example is assembled from. */
  lemma DirectoryExampleParts()
    ensures "cfg" + ".yaml" + "/repos.yaml" == "cfg.yaml/repos.yaml"
    ensures "cfg.yaml/repos" + ".yaml" == "cfg.yaml/repos.yaml"
    ensures "cfg" + LockExt + "/repos.yaml" == "cfg.lock/repos.yaml"
  {
  }
}
