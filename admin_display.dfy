/** The display helpers of courses/admin.py. */
module AdminDisplay {
  import opened Models

  /** How many characters of a comment the admin list shows. */
  const PreviewLength: nat := 50
  const Ellipsis: string := "..."

  /**
   * CourseCommentAdmin.get_short_content: a comment longer than 50 characters
   * is cut to its first 50 followed by "..."; a shorter one is shown whole.
   */
  function ShortContent(content: string): (r: string)
    ensures |content| <= PreviewLength ==> r == content
    ensures |content| > PreviewLength ==> r == content[..PreviewLength] + Ellipsis && |r| == PreviewLength + 3
    ensures |r| <= PreviewLength + 3
    ensures r[..Min(PreviewLength, |content|)] == content[..Min(PreviewLength, |content|)]
  {
    if |content| > PreviewLength then content[..PreviewLength] + Ellipsis else content
  }

  /** Shortening a shortened comment changes nothing more. */
  lemma ShortContentIdempotent(content: string)
    ensures ShortContent(ShortContent(content)) == ShortContent(content)
  {
    if |content| > PreviewLength {
      var r := ShortContent(content);
      assert r[..PreviewLength] == content[..PreviewLength];
    }
  }

  /**
   * get_user_name of EnrollmentAdmin and of CourseCommentAdmin: the full name
   * when it is not empty, else the username.
   */
  function DisplayName(u: User): (r: string)
    ensures u.fullName != "" ==> r == u.fullName
    ensures u.fullName == "" ==> r == u.username
    ensures r == "" <==> u.fullName == "" && u.username == ""
  {
    if u.fullName != "" then u.fullName else u.username
  }
}
