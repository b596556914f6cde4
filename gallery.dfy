/** The photo gallery of js/gallery.js: the filter bar that shows the items
    of one category, and the lightbox that pages through the images one at
    a time. Both keep their state in place, so both are classes; the index
    arithmetic and the counter text they rely on are functions. */
module Gallery {
  import opened Wrappers
  import opened Text

  /** The `src` and `alt` of an image. */
  datatype Image = Image(src: string, alt: string)

  /** A `.gallery-item`: its `data-category` attribute (`null` when it has
      none) and its picture. */
  datatype Item = Item(category: Option<string>, picture: Image)

  // ---------------------------------------------------------------------
  // Filtering

  /** Whether a filter button with the given `data-filter` shows an item of
      the given category: the filter "all" shows everything, any other
      filter shows the items whose category is the very same value (so a
      button without the attribute shows the items without one, as
      `null === null` holds). */
  predicate Shows(filter: Option<string>, category: Option<string>) {
    filter == Some("all") || category == filter
  }

  /** The filter bar: the `data-filter` of each button and the category of
      each item are fixed; which button carries the `active` class and
      which items are displayed change with every click. */
  class FilterBar {
    const filters: seq<Option<string>>
    const categories: seq<Option<string>>
    const active: array<bool>
    const shown: array<bool>

    ghost predicate Valid()
      reads this
    {
      active.Length == |filters| && shown.Length == |categories| && active != shown
    }

    /** The bar as the page loads it: each button with its initial `active`
        class, every item displayed. */
    constructor (filters: seq<Option<string>>, categories: seq<Option<string>>, initiallyActive: seq<bool>)
      requires |initiallyActive| == |filters|
      ensures Valid()
      ensures this.filters == filters && this.categories == categories
      ensures active[..] == initiallyActive
      ensures forall j | 0 <= j < shown.Length :: shown[j]
      ensures fresh(active) && fresh(shown)
    {
      this.filters := filters;
      this.categories := categories;
      active := new bool[|filters|];
      shown := new bool[|categories|];
      new;
      var i := 0;
      while i < |filters|
        invariant 0 <= i <= |filters|
        invariant forall j | 0 <= j < i :: active[j] == initiallyActive[j]
        modifies active
      {
        active[i] := initiallyActive[i];
        i := i + 1;
      }
      i := 0;
      while i < |categories|
        invariant 0 <= i <= |categories|
        invariant forall j | 0 <= j < i :: shown[j]
        invariant forall j | 0 <= j < |filters| :: active[j] == initiallyActive[j]
        modifies shown
      {
        shown[i] := true;
        i := i + 1;
      }
    }

    /** A click on button `b`. When the page has no items no handler was
        attached and nothing happens. Otherwise exactly the clicked button
        becomes active and an item is displayed exactly when the clicked
        filter shows its category (the state once the fade animations have
        run). */
    method OnClick(b: nat)
      requires Valid() && b < |filters|
      modifies active, shown
      ensures Valid()
      ensures |categories| == 0 ==> unchanged(active) && unchanged(shown)
      ensures |categories| > 0 ==> forall j | 0 <= j < active.Length :: active[j] == (j == b)
      ensures |categories| > 0 ==> forall j | 0 <= j < shown.Length :: shown[j] == Shows(filters[b], categories[j])
    {
      if |categories| == 0 {
        return;
      }
      var filter := filters[b];
      var i := 0;
      while i < active.Length
        invariant 0 <= i <= active.Length
        invariant forall j | 0 <= j < i :: !active[j]
        invariant unchanged(shown)
      {
        active[i] := false;
        i := i + 1;
      }
      active[b] := true;
      i := 0;
      while i < shown.Length
        invariant 0 <= i <= shown.Length
        invariant forall j | 0 <= j < i :: shown[j] == Shows(filter, categories[j])
        invariant forall j | 0 <= j < active.Length :: active[j] == (j == b)
      {
        shown[i] := Shows(filter, categories[i]);
        i := i + 1;
      }
    }
  }

  // ---------------------------------------------------------------------
  // Lightbox index arithmetic

  /** `showNextImage`: one step forward, from the last image back to the
      first. */
  function Next(i: nat, n: nat): (r: nat)
    requires i < n
    ensures r < n
    ensures i + 1 < n ==> r == i + 1
    ensures i + 1 == n ==> r == 0
  {
    (i + 1) % n
  }

  /** `showPreviousImage`: one step back, from the first image round to the
      last. */
  function Previous(i: nat, n: nat): (r: nat)
    requires i < n
    ensures r < n
    ensures i > 0 ==> r == i - 1
    ensures i == 0 ==> r == n - 1
  {
    (i - 1 + n) % n
  }

  /** Next and Previous undo each other, in either order. */
  lemma {:induction false} NextPreviousInverse(i: nat, n: nat)
    requires i < n
    ensures Previous(Next(i, n), n) == i
    ensures Next(Previous(i, n), n) == i
  {
  }

  /** The index after `k` presses of Next. */
  function Advance(i: nat, n: nat, k: nat): (r: nat)
    requires i < n
    ensures r < n
  {
    if k == 0 then i else Next(Advance(i, n, k - 1), n)
  }

  lemma {:induction false} ModUnique(a: int, n: int, q: int, r: int)
    requires n > 0 && a == q * n + r && 0 <= r < n
    ensures a % n == r
  {
    var q' := a / n;
    assert (q - q') * n == a % n - r;
    if q > q' {
      MulAtLeast(q - q', n);
    } else if q < q' {
      MulAtLeast(q' - q, n);
    }
  }

  lemma {:induction false} MulAtLeast(x: int, n: int)
    requires x >= 1 && n > 0
    ensures x * n >= n
  {
    assert x * n == (x - 1) * n + n;
  }

  /** One more step after a remainder is the remainder of one more. */
  lemma {:induction false} ModSucc(a: nat, n: nat)
    requires n > 0
    ensures a % n + 1 < n ==> (a + 1) % n == a % n + 1
    ensures a % n + 1 == n ==> (a + 1) % n == 0
  {
    var q := a / n;
    var j := a % n;
    assert a == q * n + j;
    if j + 1 < n {
      ModUnique(a + 1, n, q, j + 1);
    } else {
      assert a + 1 == (q + 1) * n;
      ModUnique(a + 1, n, q + 1, 0);
    }
  }

  /** `k` presses of Next from image `i` land on image `(i + k) mod n`; in
      particular `n` presses come back to where they started. */
  lemma {:induction false} AdvanceIsSum(i: nat, n: nat, k: nat)
    requires i < n
    ensures Advance(i, n, k) == (i + k) % n
  {
    if k == 0 {
      ModUnique(i, n, 0, i);
    } else {
      AdvanceIsSum(i, n, k - 1);
      ModSucc(i + k - 1, n);
    }
  }

  /** Paging forward through all `n` images comes back to the first one
      shown. */
  lemma {:induction false} AdvanceFullCircle(i: nat, n: nat)
    requires i < n
    ensures Advance(i, n, n) == i
  {
    AdvanceIsSum(i, n, n);
    ModUnique(i + n, n, 1, i);
  }

  // ---------------------------------------------------------------------
  // Lightbox

  /** The text of `.lightbox-counter`: the one-based position of the image
      shown, a slash, and the number of images. */
  function CounterText(i: nat, n: nat): string {
    NatToString(i + 1) + " / " + NatToString(n)
  }

  /** The counter can be read back: `parseInt` of the whole text is the
      one-based position, and the text after " / " is the number of images,
      so distinct positions or totals never give the same counter. */
  lemma {:induction false} CounterReadsBack(i: nat, n: nat)
    ensures var t := CounterText(i, n);
            var k := |NatToString(i + 1)|;
            k + 3 <= |t| && t[k..k + 3] == " / "
            && ParseInt(t) == Some(i + 1) && ParseInt(t[k + 3..]) == Some(n)
  {
    var p := NatToString(i + 1);
    var rest := " / " + NatToString(n);
    assert CounterText(i, n) == p + rest;
    assert (p + rest)[|p| + 3..] == NatToString(n);
    NatToStringValue(i + 1);
    NatToStringValue(n);
    ParseDigitsThenText(p, rest);
    ParseUnsignedDigits(NatToString(n));
  }

  /** `galleryImages`: the picture of every gallery item, in document
      order. */
  function ImagesOf(items: seq<Item>): (r: seq<Image>)
    ensures |r| == |items|
  {
    if items == [] then [] else ImagesOf(items[..|items| - 1]) + [items[|items| - 1].picture]
  }

  lemma {:induction false} ImagesOfAt(items: seq<Item>)
    ensures forall j | 0 <= j < |items| :: ImagesOf(items)[j] == items[j].picture
  {
    if items != [] {
      ImagesOfAt(items[..|items| - 1]);
    }
  }

  /** The lightbox of a page that has one: the module-level image list and
      current index, whether the overlay has the `active` class, whether the
      page scroll is locked (`overflow: hidden` on the body), and what its
      `<img>` and counter show when the page has them. */
  class Lightbox {
    var images: seq<Image>
    var index: nat
    var active: bool
    var scrollLocked: bool
    const hasPicture: bool
    const hasCounter: bool
    var picture: Image
    var counter: string

    /** The gallery's own handlers open the overlay only on one of its
        images, and the index always names one when there are any. */
    ghost predicate Valid()
      reads this
    {
      (images != [] ==> index < |images|) && (active ==> images != [])
    }

    /** `initLightbox`: the image list is gathered from the gallery items
        and the index is still its initial 0. */
    constructor (items: seq<Item>, hasPicture: bool, hasCounter: bool, picture: Image, counter: string)
      ensures Valid()
      ensures images == ImagesOf(items) && index == 0 && !active && !scrollLocked
      ensures this.hasPicture == hasPicture && this.hasCounter == hasCounter
      ensures this.picture == picture && this.counter == counter
    {
      images := ImagesOf(items);
      index := 0;
      active := false;
      scrollLocked := false;
      this.hasPicture := hasPicture;
      this.hasCounter := hasCounter;
      this.picture := picture;
      this.counter := counter;
    }

    /** What the overlay displays for the current index, on the elements
        the page has. */
    ghost predicate Displays(oldPicture: Image, oldCounter: string)
      requires Valid() && images != []
      reads this
    {
      picture == (if hasPicture then images[index] else oldPicture)
      && counter == (if hasCounter then CounterText(index, |images|) else oldCounter)
    }

    /** `updateLightboxImage`. */
    method Update()
      requires Valid() && images != []
      modifies this`picture, this`counter
      ensures Valid() && Displays(old(picture), old(counter))
    {
      var current := images[index];
      if hasPicture {
        picture := current;
      }
      if hasCounter {
        counter := CounterText(index, |images|);
      }
    }

    /** A click on gallery item `k` opens the overlay on its image. */
    method OnItemClick(k: nat)
      requires Valid() && k < |images|
      modifies this`index, this`active, this`scrollLocked, this`picture, this`counter
      ensures Valid()
      ensures index == k && active && scrollLocked
      ensures Displays(old(picture), old(counter))
    {
      index := k;
      Open();
    }

    /** `openLightbox`. */
    method Open()
      requires Valid() && images != []
      modifies this`active, this`scrollLocked, this`picture, this`counter
      ensures Valid()
      ensures active && scrollLocked
      ensures Displays(old(picture), old(counter))
    {
      active := true;
      scrollLocked := true;
      Update();
    }

    /** `closeLightbox`: the overlay is hidden and the page scrolls again;
        the index and the displayed image stay as they were. */
    method Close()
      requires Valid()
      modifies this`active, this`scrollLocked
      ensures Valid()
      ensures !active && !scrollLocked
    {
      active := false;
      scrollLocked := false;
    }

    /** `showNextImage` (the next button, and ArrowRight). */
    method ShowNext()
      requires Valid() && images != []
      modifies this`index, this`picture, this`counter
      ensures Valid()
      ensures index == Next(old(index), |images|)
      ensures Displays(old(picture), old(counter))
    {
      index := (index + 1) % |images|;
      Update();
    }

    /** `showPreviousImage` (the previous button, and ArrowLeft). */
    method ShowPrevious()
      requires Valid() && images != []
      modifies this`index, this`picture, this`counter
      ensures Valid()
      ensures index == Previous(old(index), |images|)
      ensures Displays(old(picture), old(counter))
    {
      index := (index - 1 + |images|) % |images|;
      Update();
    }

    /** The `keydown` handler: nothing happens while the overlay is hidden;
        while it is open, Escape closes it, ArrowLeft and ArrowRight page
        back and forth, and every other key is ignored. */
    method OnKeyDown(key: string)
      requires Valid()
      modifies this`index, this`active, this`scrollLocked, this`picture, this`counter
      ensures Valid()
      ensures !old(active) || (key != "Escape" && key != "ArrowLeft" && key != "ArrowRight") ==>
                unchanged(this)
      ensures old(active) && key == "Escape" ==>
                !active && !scrollLocked && unchanged(this`index, this`picture, this`counter)
      ensures old(active) && key == "ArrowLeft" ==>
                images != [] && index == Previous(old(index), |images|) && Displays(old(picture), old(counter))
                && active && scrollLocked == old(scrollLocked)
      ensures old(active) && key == "ArrowRight" ==>
                images != [] && index == Next(old(index), |images|) && Displays(old(picture), old(counter))
                && active && scrollLocked == old(scrollLocked)
    {
      if !active {
        return;
      }
      if key == "Escape" {
        Close();
      } else if key == "ArrowLeft" {
        ShowPrevious();
      } else if key == "ArrowRight" {
        ShowNext();
      }
    }
  }
}
