# Bill-Splitter: the Item model

Bill-Splitter lets the members of a group record shared costs. An *Item* is
one cost line of a group: it has a name, a cost, and a collection of
*partitions*, one join record per user the item is shared with. This
project models the Item class of the Rails application in Dafny and proves
what it promises. It covers two parts:

- **The name.** A `before_validation` callback lower-cases the name, splits
  it on runs of whitespace, capitalises each word and joins the words with
  single spaces. Validations then require a present name of 1 to
  `NAME_MAX_LENGTH` = 20 characters. Module `ItemName` (`item_name.dfy`)
  models this with pure functions over ASCII strings:
  - `Downcase`, `Capitalize`, `Split`, `Join`, `Normalize`, `NameErrors`.
  - The proofs show that the stored name is canonical (`Canonical`): single
    spaces only between words, and every word starting with a
    non-lower-case character followed by no upper-case letters.
  - Normalising is idempotent, and it leaves a name alone exactly when the
    name is canonical.
  - A name that is all whitespace becomes "" and is rejected. A normalised
    name is valid exactly when it has 1 to 20 characters.
- **Sharing.** `include_user?`, `count_users`, `user_cost`, `add_user`,
  `get_partition` and `remove_user` work on the item's partitions.
  - Module `Sharing` (`sharing.dfy`) turns the ActiveRecord calls they use
    into functions over an in-memory sequence of `Partition(id, user)`:
    `FindBy` for `find_by`, `FindOrCreate` for `find_or_create_by`,
    `DestroyAll` for `destroy_all`.
  - Module `Items` (`item.dfy`) holds the classes `Group` and `Item`.
    `Item.AddUser` and `Item.RemoveUser` update the `partitions` field in
    place.
  - Every method keeps the invariant `Valid()`: at most one partition per
    user, and every key below the next key the store hands out.
  - The lemmas tie this to the documented behaviour. Adding twice creates
    no second partition. Adding a non-member changes nothing. Removing a
    user touches no other user's partition, and removing an absent user is
    a no-op. `count_users` is the number of distinct sharers.
    `get_partition` finds something exactly when `include_user?` holds.
    `user_cost` times the number of sharers is the cost.

`wrappers.dfy` holds the `Option` type. The scenario methods at the end of
`item.dfy` (`SharedPizza`, `PizzaScenario`, `UnshareScenario`, `PizzaName`)
call the operations on small concrete items; their `ensures` state the
outcomes.

## Model

| member | source | states |
|---|---|---|
| ItemName.NameErrors | app/models/item.rb:20-21 | The name has no errors exactly when it is not all whitespace and has 1 to 20 characters. :blank is reported exactly for an all-whitespace name, :too_short exactly for "", :too_long exactly beyond 20 characters. |
| ItemName.Downcase | app/models/item.rb:25 | `downcase` turns each upper-case letter into its lower-case letter and keeps every other character. The result has the same length and no upper-case letter, with whitespace exactly where the input had it. |
| ItemName.Capitalize | app/models/item.rb:25 | `capitalize` keeps the length and the whitespace positions, makes the first character not lower-case and leaves no upper-case letter after it. |
| ItemName.CapitalizeOnlyCase | app/models/item.rb:25 | `capitalize` changes only case: its result lower-cases to the same string as the input. With Capitalize's case facts this fixes every character of the result. |
| ItemName.Join | app/models/item.rb:25 | `join(' ')`: its properties are stated by SplitJoin (split recovers the words), JoinSingleSpaced, JoinTitleCased, JoinEmpty and DowncaseJoin. |
| ItemName.Normalize | app/models/item.rb:25 | The callback's rewrite: its properties are stated by NormalizeCanonical, NormalizeWords, NormalizeFixedIff, NormalizeIdempotent and NormalizeEmpty. |
| ItemName.Split | app/models/item.rb:25 | `split` yields only non-empty words without whitespace, and yields no words exactly when the string is all whitespace. |
| ItemName.CapitalizeTitle | app/models/item.rb:25 | `capitalize` of a word is a title word (first character not lower-case, no upper-case letter after it) of the same length. |
| ItemName.TitleWordStable | app/models/item.rb:25 | A title word is what `capitalize` makes of its lower-case form. |
| ItemName.LeadingWordOf | app/models/item.rb:25 | A word followed by whitespace or by nothing is the maximal whitespace-free prefix that `split` cuts off. |
| ItemName.JoinEmpty | app/models/item.rb:25 | `join(' ')` of words is "" exactly when there are no words, and starts with the first word's first character. |
| ItemName.JoinSingleSpaced | app/models/item.rb:25 | Words joined by ' ' have no leading or trailing whitespace, no whitespace but ' ', and no two spaces in a row. |
| ItemName.JoinTitleCased | app/models/item.rb:25 | Title words joined by ' ' give a string where every word start is not lower-case and no other character is upper-case. |
| ItemName.DowncaseJoin | app/models/item.rb:25 | Lower-casing a joined string equals joining the lower-cased words. |
| ItemName.SplitWordThen | app/models/item.rb:25 | A word followed by whitespace or by nothing is split off as the first word. |
| ItemName.SplitSpaceThen | app/models/item.rb:25 | `split` ignores a leading space. |
| ItemName.SplitJoin | app/models/item.rb:25 | Splitting words joined by ' ' gives back exactly those words. |
| ItemName.CanonicalSplitStep | app/models/item.rb:25 | A non-empty canonical string is a title word, then either nothing or one space and a shorter canonical rest, and `split` takes it apart that way. |
| ItemName.CanonicalSplit | app/models/item.rb:25 | A canonical string is its own words joined by single spaces, and each of those words is a title word. |
| ItemName.NormalizeWords | app/models/item.rb:25 | The stored name's words are the given name's words in order, each lower-cased and then capitalised. |
| ItemName.NormalizeCanonical | app/models/item.rb:25 | The stored name is single-spaced and title-cased. |
| ItemName.TitleWordsFixed | app/models/item.rb:25 | Title words joined by single spaces come through the callback unchanged. |
| ItemName.CanonicalFixed | app/models/item.rb:25 | A canonical name is stored unchanged. |
| ItemName.NormalizeFixedIff | app/models/item.rb:25 | The callback leaves a name unchanged if and only if the name is canonical. |
| ItemName.NormalizeIdempotent | app/models/item.rb:25 | Running the callback twice gives the same name as running it once. |
| ItemName.NormalizeEmpty | app/models/item.rb:25 | The stored name is "" exactly when the given name is all whitespace. |
| ItemName.NormalizedNameValid | app/models/item.rb:20-25 | After the callback the name has no errors exactly when it has 1 to 20 characters. |
| ItemName.BlankNameRejected | app/models/item.rb:20-25 | An all-whitespace name is stored as "" and gets exactly the errors :blank and :too_short. |
| ItemName.SplitLeadingSpaces | app/models/item.rb:25 | `split` ignores any whitespace before the first word. |
| ItemName.SplitTwoWords | app/models/item.rb:25 | Whitespace, a word, at least one whitespace character, a word: `split` gives exactly the two words. |
| ItemName.NormalizeTwoWords | app/models/item.rb:25 | Two lower-case words with any whitespace around and between them are stored as the two capitalised words with one space between. |
| ItemName.NormalizeOneWord | app/models/item.rb:25 | One lower-case word after any whitespace is stored as that word capitalised. |
| ItemName.NormalizeTvDinner | app/models/item.rb:25 | "  tv   dinner" is stored as "Tv Dinner". |
| ItemName.NormalizePizza | app/models/item.rb:25 | "  pizza" is stored as "Pizza". |
| Sharing.FindBy | app/models/item.rb:66-68 | `find_by(user: u)` finds something exactly when `u` has a partition on the item, and what it finds is a partition of `u` from the collection. |
| Sharing.FindOrCreate | app/models/item.rb:59 | After `find_or_create_by(user: u)` the collection holds the old partitions plus a new one for `u` exactly when `u` had none. The users become the old users plus `u`, and one partition per user is kept. |
| Sharing.DestroyAll | app/models/item.rb:70-72 | Removing every partition of `u`, as the comment on `remove_user` describes: the collection holds exactly the partitions of other users, and the users are the old users minus `u`. |
| Sharing.UsersOfCons | app/models/item.rb:11 | The users of a partition followed by a collection are that partition's user plus the collection's users. |
| Sharing.UniqueCount | app/models/item.rb:11 | With one partition per user, the number of partitions equals the number of users reached through them. |
| Sharing.FindByUnique | app/models/item.rb:66-68 | With one partition per user, `find_by` returns the one partition of that user. |
| Sharing.FindOrCreateIdempotent | app/models/item.rb:55-59 | A second `find_or_create_by` for the same user changes nothing, whatever key it would have used. |
| Sharing.FindOrCreateCount | app/models/item.rb:55-59 | With one partition per user, sharing with a new user adds one partition and sharing with a sharer adds none. The partition count stays equal to the number of sharers. |
| Sharing.FindByAppended | app/models/item.rb:59 | After a partition of a user without one is appended, `find_by` finds that new partition. |
| Sharing.DestroyAllAbsent | app/models/item.rb:70-73 | `destroy_all` for a user without partitions leaves the collection as it was. |
| Sharing.UniqueTail | app/models/item.rb:11 | In a collection with one partition per user, the first partition's user has no other partition, and the rest keeps one partition per user. |
| Sharing.UniqueCons | app/models/item.rb:11 | Putting a partition of a user without one in front keeps one partition per user. |
| Sharing.DestroyAllUnique | app/models/item.rb:72 | `destroy_all` keeps one partition per user. |
| Sharing.DestroyAllCount | app/models/item.rb:70-73 | With one partition per user, removing a sharer removes exactly one partition, and removing anyone else removes none. |
| Items.Item.constructor | app/models/item.rb:10-12 | A new item has the given name, cost and group, no partitions, and satisfies the invariant. |
| Items.Item.Sharers | app/models/item.rb:11 | `item.users`, the users reached through the partitions: IncludeUser, CountUsers, CountUsersIsSharers and RemoveUser state their properties against it. |
| Items.Item.CountUsers | app/models/item.rb:42-44 | `count_users` is 0 exactly when the item has no sharers; CountUsersIsSharers proves it equals the number of sharers. |
| Items.Item.IncludeUser | app/models/item.rb:37-39 | `include_user?(u)` holds exactly when some partition of the item belongs to `u`, that is, when `u` is among the item's users. |
| Items.Item.CountUsersIsSharers | app/models/item.rb:42-44 | `count_users` equals the number of distinct users, and those are exactly the users `include_user?` holds for. |
| Items.Item.UserCost | app/models/item.rb:46-53 | `user_cost` is 0 when nobody shares the item. Otherwise it multiplied by `count_users` gives back the cost. |
| Items.Item.GetPartition | app/models/item.rb:66-68 | `get_partition(u)` returns something exactly when `include_user?(u)`, and then returns a partition of `u` on the item. |
| Items.Item.GetPartitionOnly | app/models/item.rb:66-68 | Under the invariant, `get_partition` returns the one partition of that user. |
| Items.Item.AddUser | app/models/item.rb:55-64 | For a group member, the partitions become `find_or_create_by` of the old ones, and the result is that user's partition, which `get_partition` also returns. The key counter moves only when a partition is created. For anyone else, nothing is returned and the collection is unchanged. The invariant is kept. |
| Items.Item.RemoveUser | app/models/item.rb:70-73 | The partitions become `destroy_all` of the old ones, so `include_user?(u)` is false afterwards. The sharers lose exactly `u`, every other user's partition stays, the call is a no-op when `u` was not sharing, and the invariant is kept. |
| Items.Item.ValidateName | app/models/item.rb:20-25 | `valid?` first stores the normalised name, which is canonical. The errors are those of the stored name, and there are none exactly when it has 1 to 20 characters. |
| Items.AddUserAsWritten | app/models/item.rb:56-64 | `add_user` as written returns a partition exactly when the user is a group member, and raises NameError otherwise. |
| Items.AddUserAsWrittenAgrees | app/models/item.rb:56-59 | For a group member, `add_user` as written returns the partition that `Item.AddUser` leaves for that user. |
| Items.AddUserAsWrittenRaises | app/models/item.rb:60-62 | For a user outside the group, `add_user` as written raises NameError on `record` instead of returning false. |
| Items.SharedPizza | app/models/item.rb:55-59 | Sharing a new 12.00 item with both members A and B gives their partitions, keys 0 and 1, in that order. |
| Items.PizzaScenario | app/models/item.rb:46-64 | Re-sharing with A returns A's first partition, sharing with a non-member C is refused, and each of the two sharers pays 6.00. |
| Items.UnshareScenario | app/models/item.rb:46-73 | After removing A twice, B is the only sharer and pays the whole 12.00. |
| Items.PizzaName | app/models/item.rb:20-25 | An item named "  pizza" is stored as "Pizza" and passes validation. |

## Left out

- Persistence and the association machinery (app/models/item.rb:10-12): the store is an in-memory sequence of partitions. Keys come from a counter on the item. `dependent: :destroy` has no counterpart because items are never destroyed here.
- The `ordered` scope (app/models/item.rb:14): database ordering of items, with no logic of the item itself.
- `to_s` (app/models/item.rb:31-34): it formats through the Rails helper `number_to_currency`, whose rounding and separators are not part of this model.
- The `currency: true` validator and the presence check on `cost` (app/models/item.rb:22): the currency validator's code is not part of this model, and the cost is always a number here.
- app/models/group.rb is not part of this model. `Group#include_user?` is modelled as membership in the group's set of members (`Items.Group.IncludeUser`).
- Races between concurrent `find_or_create_by` calls (app/models/item.rb:59): a database atomicity concern. Calls here run one at a time.
- ItemName.Downcase, ItemName.Capitalize, ItemName.Split: only ASCII letters change case, and only ASCII whitespace (space, tab, newline, vertical tab, form feed, carriage return) separates words. Unicode case mapping and the Unicode spaces that Rails' `blank?` also accepts are not modelled.
- A `nil` name, which makes the callback raise NoMethodError: names are always strings here.
- Items.Item.UserCost: uses exact real division instead of the floating-point `cost * (1.0 / count)`. It returns the real 0.0 where Ruby returns the Integer 0.
- Sharing.FindBy: returns the first matching partition. The SQL query has no ORDER BY, so the database may return any match. Under the one-partition-per-user invariant there is only one match.
- Items.Item.AddUser: for a non-member it returns None and changes nothing. This is the behaviour the comment at app/models/item.rb:55 documents. The error message the broken line meant to record on the item is not modelled.
- Items.Item.RemoveUser: gives `partitions.destroy_all(user: u)` (app/models/item.rb:72) the meaning of `partitions.where(user: u).destroy_all`, which is what the comment at app/models/item.rb:70 describes. The argument list of the association's own `destroy_all`, which in current Rails takes no conditions, is not modelled. The records `destroy_all` returns are not modelled either, because no caller in the model uses them.

## Findings

| source | as written | input that shows it | evidently intended | confidence | as-written member | corrected member |
|---|---|---|---|---|---|---|
| app/models/item.rb:61 | The failure branch of `add_user` evaluates `record.errors[:users]` and `options[:message]`. Neither `record` nor `options` exists in an Item method, so Ruby raises NameError before `return false`. | `add_user(u)` with `u` not a member of the item's group (`Items.AddUserAsWrittenRaises`: members {1}, user 2) | Return false and leave the partitions unchanged, as the comment at app/models/item.rb:55 says | high, not executed | Items.AddUserAsWritten | Items.Item.AddUser |
