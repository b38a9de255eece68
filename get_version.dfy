/**
 * The version cascade of `artifacts/get-version.py`: a version passed in the environment,
 * else the one pinned in the source tree's `version` file (marked `-local` when it carries
 * no suffix), else today's date stamp. The environment value, the file's content (absent
 * when the file does not exist) and today's date are parameters.
 */
module GetVersion {
  import opened Wrappers
  import opened Text
  import Common
  import MesonCommon

  /** The pinned version: the file's content stripped, with `-local` appended when it holds no `-`. */
  function PinnedVersion(content: string): string {
    var ver := Strip(content);
    if '-' in ver then ver else ver + "-local"
  }

  /** The version printed for `OPENSLIDE_BIN_VERSION` (`None` when unset), the pinned file and today's date. */
  function GetVersion(envVersion: Option<string>, pinned: Option<string>, today: Common.Date): string
    requires Common.ValidDate(today)
  {
    if envVersion.Some? && envVersion.value != "" then envVersion.value
    else if pinned.Some? then PinnedVersion(pinned.value)
    else Common.DefaultVersion(today)
  }

  /**
   * The pinned version keeps the stripped content as a prefix, gains `-local` exactly when
   * that content holds no `-`, always holds a `-`, and is already stripped.
   */
  lemma PinnedVersionSpec(content: string)
    ensures StartsWith(PinnedVersion(content), Strip(content))
    ensures PinnedVersion(content) == Strip(content) <==> '-' in Strip(content)
    ensures PinnedVersion(content) != Strip(content) ==> PinnedVersion(content) == Strip(content) + "-local"
    ensures '-' in PinnedVersion(content)
    ensures Strip(PinnedVersion(content)) == PinnedVersion(content)
  {
    var ver := Strip(content);
    assert |ver| > 0 ==> !IsSpace(ver[0]) && !IsSpace(ver[|ver| - 1]) by {
      StripSpec(content);
    }
    if '-' in ver {
      assert ver[..|ver|] == ver;
      StripTrimmed(ver);
    } else {
      var suffix := "-local";
      assert suffix[0] == '-' && suffix[|suffix| - 1] == 'l';
      AppendTrimmed(ver, suffix);
      assert (ver + suffix)[|ver|] == '-';
    }
  }

  /** Applying the pinned rule to its own result changes nothing. */
  lemma PinnedVersionIdempotent(content: string)
    ensures PinnedVersion(PinnedVersion(content)) == PinnedVersion(content)
  {
    PinnedVersionSpec(content);
  }

  /**
   * An empty environment value counts as unset; a non-empty one decides alone, whatever the
   * pinned file and the date; an existing pinned file makes the date irrelevant; without
   * either, the version is the date default that `common/meson.py` computes too.
   */
  lemma GetVersionCascade(e: string, pinned: Option<string>, pinned2: Option<string>, today: Common.Date, today2: Common.Date)
    requires Common.ValidDate(today) && Common.ValidDate(today2)
    ensures GetVersion(Some(""), pinned, today) == GetVersion(None, pinned, today)
    ensures e != "" ==> GetVersion(Some(e), pinned, today) == GetVersion(Some(e), pinned2, today2) == e
    ensures pinned.Some? ==> GetVersion(None, pinned, today) == GetVersion(None, pinned, today2)
    ensures GetVersion(None, None, today) == MesonCommon.DefaultVersion(None, today)
  {
  }

  /**
   * This script's pinned rule and the `-local` rule of `common/meson.py` agree exactly when
   * the stripped content holds no `-` (both append `-local`) or already holds `-local` (both
   * keep it). Content such as `1.0-rc1` is kept here and gains `-local` there.
   */
  lemma PinnedVersusMeson(content: string)
    ensures PinnedVersion(content) == MesonCommon.LocalVersion(content) <==>
      '-' !in Strip(content) || Contains(Strip(content), MesonCommon.LocalSuffix)
  {
    var ver := Strip(content);
    if Contains(ver, MesonCommon.LocalSuffix) {
      ContainsFirstChar(ver, MesonCommon.LocalSuffix);
    }
    if '-' in ver && !Contains(ver, MesonCommon.LocalSuffix) {
      assert |MesonCommon.LocalVersion(content)| == |ver| + 6;
    }
  }

  /** The result is never empty, and without an environment value it always holds a `-`. */
  lemma GetVersionNonEmpty(envVersion: Option<string>, pinned: Option<string>, today: Common.Date)
    requires Common.ValidDate(today)
    ensures GetVersion(envVersion, pinned, today) != ""
    ensures envVersion.None? || envVersion.value == "" ==> '-' in GetVersion(envVersion, pinned, today)
  {
    var r := GetVersion(envVersion, pinned, today);
    if envVersion.Some? && envVersion.value != "" {
      assert r == envVersion.value;
    } else if pinned.Some? {
      assert r == PinnedVersion(pinned.value);
      PinnedVersionSpec(pinned.value);
    } else {
      assert r == Common.DefaultVersion(today);
      DateDefaultHasDash(today);
    }
  }

  lemma DateDefaultHasDash(today: Common.Date)
    requires Common.ValidDate(today)
    ensures '-' in Common.DefaultVersion(today)
  {
    var r := Common.DefaultVersion(today);
    Common.DefaultVersionFormat(today);
    assert r[8] == r[8..][0];
  }

  /** A pinned file that is empty or blank gives exactly `-local`. */
  lemma BlankPinnedFile(content: string)
    requires IsBlank(content)
    ensures PinnedVersion(content) == "-local"
  {
    StripSpec(content);
  }
}
