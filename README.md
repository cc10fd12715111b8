# Counter state machine of first-iced-app

This project models the counter application in `src/main.rs`. The `Counter` struct holds one `i8` field, `value`, which `#[derive(Default)]` starts at 0. `Counter::update` matches on the closed enum `Message` (`Increment`, `Decrement`) and adds `1` or `-1` to `value` in place.

The model is the module `CounterApp` in `counter.dfy`:

- `Int8` is a newtype over `int` limited to [-128, 127]. It stands for Rust's `i8`, so every assignment to `value` must be proved to stay in range. This is the same check a debug build does before `+=` panics.
- `Message` is a datatype with the two constructors `Increment` and `Decrement`, like the closed `enum Message` (src/main.rs:8-12). Every match on it is checked to be exhaustive.
- `Counter` is a class with the single field `value: Int8`. Its constructor is `Counter::default()`. `Update` changes `value` in place, as `update(&mut self, …)` does.
- An overflow (incrementing at 127 or decrementing at -128) panics in a debug build. The model turns it into the precondition `!Overflows(value, m)` of `Update`. It is not a saturation: the code has plain `+=`, so nothing clamps.
- The iced runtime calls `update` once per message, in order. That is modelled by the pure function `Run(v, ms)`. It returns `Some(final value)`, or `None` when an update in the sequence overflows (the panic, after which no more messages are processed). `Step(v, m)` is one non-overflowing update.
- `Net(ms)` is the number of `Increment`s minus the number of `Decrement`s. It is defined on the multiset of messages, independently of `Run`.

## Model

| member | source | states |
|---|---|---|
| `CounterApp.Counter.constructor` | src/main.rs:3-6 | a default-constructed counter has `value == 0` |
| `CounterApp.Counter.Update` | src/main.rs:15-20 | when `m` does not overflow, the new `value` is `Step(old(value), m)`, which equals one run of `[m]`; `value` stays an `i8` |
| `CounterApp.Overflows` | src/main.rs:17-18 | an update overflows exactly when `value + 1` (Increment) or `value + -1` (Decrement) leaves [-128, 127] |
| `CounterApp.Step` | src/main.rs:15-19 | `Increment` raises the value by exactly one; `Decrement` lowers it by exactly one; both variants are handled, and neither leaves the value unchanged |
| `CounterApp.Run` | src/main.rs:15-19 | a sequence of updates that does not panic ends at the start value plus the net count of its messages |
| `CounterApp.RunAppend` | src/main.rs:15-19 | running `a + b` equals running `a` and then `b` from where `a` ended; a panic in `a` is a panic of the whole |
| `CounterApp.RunSucceedsIff` | src/main.rs:15-19 | a sequence runs without a panic if and only if start value plus the net count of every prefix stays in the `i8` range |
| `CounterApp.FromDefault` | src/main.rs:3-19 | from the default 0, a sequence runs without a panic if and only if the net count of every prefix fits in `i8`, and then ends at #Increment minus #Decrement |
| `CounterApp.StepInverse` | src/main.rs:17-18 | an Increment followed by a Decrement, or the reverse, restores the value when the first step does not overflow; the second step then cannot overflow |
| `CounterApp.RunCancel` | src/main.rs:15-19 | inserting a message and its opposite where the message does not overflow, or after a panic, changes neither whether the sequence panics nor its final value |
| `CounterApp.UpdateUndo` | src/main.rs:15-20 | any counter given a non-overflowing message and then its opposite holds its original value again |
| `CounterApp.UpdateAll` | src/main.rs:15-20 | calling `Update` on a counter once per message, in order, leaves it holding the value `Run` predicts, when no update overflows |

## Left out

- `Counter::view` (src/main.rs:22-38): building widgets and layout through the iced toolkit. It is UI and has nothing to state. Both buttons are labelled "+" there; that is a cosmetic detail.
- `main` and `iced::run` (src/main.rs:41-43): the runtime's event loop is a foreign library call. Its effect, one `update` per message in order, is modelled by `Run` and, on a `Counter` object, by `UpdateAll`.
- Release-build wrapping arithmetic: whether `+=` wraps or panics depends on the build profile, not on the code. Only the debug-build panic is modelled.
- The derived `Debug`, `Clone` and `Copy` implementations. They have no behaviour worth stating.
- The repository's file-editor prototypes (open/save dialogs, error queue) are outside this model.
