/** src/lib/internImages.ts: the public image path derived from an intern id. */
module InternImages {

  const Prefix := "/interns/"
  const Suffix := ".webp"

  /** `getInternImageUrl(id)`: no path for an empty id, else `/interns/<id>.webp`. */
  function ImageUrl(id: string): (r: string)
    ensures r == [] <==> id == []
    ensures id != [] ==> |r| == |id| + 14 && r[..9] == Prefix && r[|r| - 5..] == Suffix
    ensures id != [] ==> r[9..|r| - 5] == id
  {
    if id == [] then "" else Prefix + id + Suffix
  }

  /** Distinct ids never share an image path. */
  lemma ImageUrlInjective(a: string, b: string)
    requires ImageUrl(a) == ImageUrl(b)
    ensures a == b
  {
    if a != [] {
      var r := ImageUrl(a);
      assert r[9..|r| - 5] == a;
    }
  }
}
