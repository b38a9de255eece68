/**
 * `default_version` of `common/meson.py`: the version pinned in the source tree's `version`
 * file, always marked `-local`, or today's date stamp when the file does not exist. The
 * file's content (absent when the file does not exist) and today's date are parameters.
 */
module MesonCommon {
  import opened Wrappers
  import opened Text
  import Common

  const LocalSuffix := "-local"

  /** The pinned rule: strip the content and append `-local` unless it already occurs in it. */
  function LocalVersion(content: string): string {
    var ver := Strip(content);
    if Contains(ver, LocalSuffix) then ver else ver + LocalSuffix
  }

  /** `default_version()` for the pinned file's content and today's date. */
  function DefaultVersion(pinned: Option<string>, today: Common.Date): string
    requires Common.ValidDate(today)
  {
    match pinned
    case Some(content) => LocalVersion(content)
    case None => Common.DateStamp(today) + LocalSuffix
  }

  lemma EndsWithOccurs(s: string, t: string)
    requires EndsWith(s, t)
    ensures Contains(s, t)
  {
    assert OccursAt(s, t, |s| - |t|);
  }

  /**
   * The stripped content is kept as a prefix; `-local` is appended exactly when it does not
   * occur there already; either way the result holds `-local` and is already stripped.
   */
  lemma LocalVersionSpec(content: string)
    ensures StartsWith(LocalVersion(content), Strip(content))
    ensures LocalVersion(content) == Strip(content) <==> Contains(Strip(content), LocalSuffix)
    ensures LocalVersion(content) != Strip(content) ==> LocalVersion(content) == Strip(content) + LocalSuffix
    ensures Contains(LocalVersion(content), LocalSuffix)
    ensures Strip(LocalVersion(content)) == LocalVersion(content)
  {
    var ver := Strip(content);
    assert |ver| > 0 ==> !IsSpace(ver[0]) && !IsSpace(ver[|ver| - 1]) by {
      StripSpec(content);
    }
    if Contains(ver, LocalSuffix) {
      assert ver[..|ver|] == ver;
      StripTrimmed(ver);
    } else {
      assert LocalSuffix[0] == '-' && LocalSuffix[|LocalSuffix| - 1] == 'l';
      AppendTrimmed(ver, LocalSuffix);
      assert |ver + LocalSuffix| != |ver|;
    }
  }

  /** The suffix rule is idempotent. */
  lemma LocalVersionIdempotent(content: string)
    ensures LocalVersion(LocalVersion(content)) == LocalVersion(content)
  {
    LocalVersionSpec(content);
  }

  /** The default always holds `-local`; without a pinned file it is `YYYYMMDD-local` for today. */
  lemma DefaultVersionSpec(pinned: Option<string>, today: Common.Date)
    requires Common.ValidDate(today)
    ensures Contains(DefaultVersion(pinned, today), LocalSuffix)
    ensures pinned.None? ==> DefaultVersion(pinned, today) == Common.DefaultVersion(today)
    ensures pinned.Some? ==> DefaultVersion(pinned, today) == LocalVersion(pinned.value)
  {
    match pinned
    case Some(content) => LocalVersionSpec(content);
    case None =>
      var r := DefaultVersion(pinned, today);
      Common.DefaultVersionFormat(today);
      EndsWithOccurs(r, LocalSuffix);
  }
}
