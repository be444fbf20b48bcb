/** The on/off switch of the toolbox window (src/views/components/switch.py, and the identical
    copy at the top of src/views/toolbox_views/toolbox_window.py): one `is_checked` field, and
    the `toggled` signal, kept here as the sequence of values it has emitted. Painting, the
    animation and the widget's size are not modelled. */
module Switch {
  /** What `toggled` can have emitted from a switch that started unchecked: every emission is a
      change, so the values alternate, starting with `true`. */
  predicate Alternating(emitted: seq<bool>) {
    forall i :: 0 <= i < |emitted| ==> emitted[i] == (i % 2 == 0)
  }

  class Switch {
    /** `is_checked` */
    var isChecked: bool
    /** The values `toggled` has emitted, oldest first. */
    var emitted: seq<bool>

    /** The state always agrees with the emissions: checked exactly after an odd number. */
    ghost predicate Valid()
      reads this
    {
      Alternating(emitted) && isChecked == (|emitted| % 2 == 1)
    }

    /** `__init__`: unchecked, nothing emitted. */
    constructor()
      ensures Valid() && !isChecked && emitted == []
    {
      isChecked := false;
      emitted := [];
    }

    /** `toggle`: flip, and emit the new value. */
    method Toggle()
      requires Valid()
      modifies this
      ensures Valid()
      ensures isChecked == !old(isChecked)
      ensures emitted == old(emitted) + [isChecked]
    {
      isChecked := !isChecked;
      emitted := emitted + [isChecked];
    }

    /** `setChecked(checked)`: take the value, emitting only when it changes. */
    method SetChecked(checked: bool)
      requires Valid()
      modifies this
      ensures Valid()
      ensures isChecked == checked
      ensures emitted == old(emitted) + (if old(isChecked) != checked then [checked] else [])
    {
      if isChecked != checked {
        isChecked := checked;
        emitted := emitted + [isChecked];
      }
    }

    /** `isChecked()` */
    method IsChecked() returns (checked: bool)
      ensures checked == isChecked
    {
      checked := isChecked;
    }
  }
}
